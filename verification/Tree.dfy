/** The tree of the container library: nodes linked to parent, siblings and first child, all
    updated in place, and a traversal that needs no stack. */
module Tree {
  import opened TreeLayout

  /** The nodes carry the links of a layout. */
  ghost predicate Carries<T>(l: Layout<T>)
    reads l.Keys
  {
    forall n :: n in l ==>
      && n.parent == l[n].parent && n.prev == l[n].prev && n.next == l[n].next
      && n.child == l[n].child && n.count == l[n].count
  }

  /** The links that a traversal follows. */
  ghost predicate CarriesDown<T>(l: Layout<T>)
    reads l.Keys
  {
    forall n :: n in l ==> n.parent == l[n].parent && n.next == l[n].next && n.child == l[n].child
  }

  /** Climbs until there is a sibling: the node that follows `pos` in preorder. */
  method Climb<T>(from: TreeNode?<T>, ghost l: Layout<T>, ghost order: seq<TreeNode<T>>, ghost pos: nat)
    returns (next: TreeNode?<T>)
    requires WellLinked(l, order) && CarriesDown(l) && pos <= |order|
    requires if from == null then pos == |order| else from in l && l[from].End() == pos
    ensures next == if pos < |order| then order[pos] else null
  {
    var p := from;
    while p != null
      invariant if p == null then pos == |order| else p in l && l[p].End() == pos
      decreases if p == null then 0 else l[p].at + 1
    {
      assert NodeOk(l, order, p);
      next := p.next;
      if next != null {
        assert NodeOk(l, order, next);
        return next;
      }
      p := p.parent;
    }
    return null;
  }

  /** The preorder successor: first child, else next sibling, else that of an ancestor. */
  method GetNextNode<T>(node: TreeNode<T>, ghost l: Layout<T>, ghost order: seq<TreeNode<T>>) returns (next: TreeNode?<T>)
    requires WellLinked(l, order) && CarriesDown(l) && node in l
    ensures next == if l[node].at + 1 < |order| then order[l[node].at + 1] else null
  {
    assert NodeOk(l, order, node);
    next := node.child;
    if next != null {
      assert NodeOk(l, order, next);
      return next;
    }
    next := node.next;
    if next != null {
      assert NodeOk(l, order, next);
      return next;
    }
    next := Climb(node.parent, l, order, l[node].End());
  }

  /** Frees a subtree: the children from first to last, each with its subtree, then the node. */
  method FreeTreeNode<T>(node: TreeNode<T>, ghost l: Layout<T>, ghost order: seq<TreeNode<T>>) returns (freed: seq<TreeNode<T>>)
    requires WellLinked(l, order) && node in l && NodeOk(l, order, node)
    requires forall m :: m in l && Inside(l, node, m) ==> m.child == l[m].child && (m != node ==> m.next == l[m].next)
    ensures multiset(freed) == multiset(order[l[node].at..l[node].End()])
    ensures freed != [] && freed[|freed| - 1] == node
    decreases l[node].size
  {
    var child := node.child;
    freed := [];
    ghost var at := l[node].at + 1;
    while child != null
      invariant at <= l[node].End()
      invariant if child == null then at == l[node].End() else child in l && l[child].parent == node && l[child].at == at
      invariant multiset(freed) == multiset(order[l[node].at + 1..at])
      decreases l[node].End() - at
    {
      assert NodeOk(l, order, child) && PairOk(l, node, child);
      var current := child;
      child := child.next;
      var part := FreeTreeNode(current, l, order);
      assert order[l[node].at + 1..l[current].End()] == order[l[node].at + 1..at] + order[at..l[current].End()];
      freed := freed + part;
      at := l[current].End();
      if child != null {
        assert NodeOk(l, order, child);
      }
    }
    assert order[l[node].at..l[node].End()] == [node] + order[l[node].at + 1..at];
    freed := freed + [node];
  }

  /** Where a new child goes. */
  datatype After<T> = First | Last | Behind(sibling: TreeNode<T>)

  class Tree<T> {
    var root: TreeNode?<T>
    ghost var layout: Layout<T>
    ghost var order: seq<TreeNode<T>>

    ghost predicate Valid()
      reads this, layout.Keys
    {
      && root == (if order == [] then null else order[0])
      && WellLinked(layout, order) && Carries(layout)
    }

    constructor ()
      ensures Valid() && order == [] && layout == map[]
    {
      root, layout, order := null, map[], [];
    }

    method InsertRoot(data: T) returns (node: TreeNode?<T>)
      requires Valid()
      modifies this
      ensures Valid() && (node == null <==> old(order) != [])
      ensures node == null ==> layout == old(layout) && order == old(order)
      ensures node != null ==> fresh(node) && order == [node] && DataOf(order) == [data] && layout.Keys == {node}
    {
      if root != null {
        return null;
      }
      node := new TreeNode(data);
      root := node;
      Alone(node);
      layout, order := map[node := Info(0, 1, null, null, null, null, 0)], [node];
    }

    static lemma Alone(node: TreeNode<T>)
      ensures WellLinked(map[node := Info(0, 1, null, null, null, null, 0)], [node])
    {
      var l := map[node := Info(0, 1, null, null, null, null, 0)];
      assert Kids(l, node) == {};
    }

    /** Visits the whole tree from the root on: every node once, in preorder. */
    method Traverse() returns (visited: seq<TreeNode<T>>)
      requires Valid()
      ensures visited == order
      ensures order != [] ==> visited == Preorder(layout, order, order[0])
      ensures DataOf(visited) == DataOf(order)
    {
      visited := [];
      var node := root;
      while node != null
        invariant |visited| <= |order| && visited == order[..|visited|]
        invariant node == if |visited| < |order| then order[|visited|] else null
        decreases |order| - |visited|
      {
        visited := visited + [node];
        node := GetNextNode(node, layout, order);
      }
      if order != [] {
        WholePreorder(layout, order);
      }
    }

    /** Inserts a child behind the last one, or behind a given one; fails if the given node
        is not a child of the parent. The rest of the tree keeps its order. */
    method InsertBehind(parent: TreeNode<T>, after: After<T>, data: T) returns (node: TreeNode?<T>, ghost prev: TreeNode?<T>)
      requires Valid() && parent in layout && !after.First?
      modifies this, layout.Keys
      ensures Valid()
      ensures node == null <==> after.Behind? && after.sibling !in Kids(old(layout), parent)
      ensures node == null ==> layout == old(layout) && order == old(order)
      ensures node != null ==>
        && fresh(node) && node.data == data
        && prev == (if after.Behind? then after.sibling else LastChild(old(layout), parent))
        && Place(old(layout), old(order), parent, prev, SlotOf(old(layout), parent, prev))
        && layout == InsertNode(old(layout), parent, prev, SlotOf(old(layout), parent, prev), node)
        && order == Inserted(old(order), SlotOf(old(layout), parent, prev), node)
        && node.parent == parent && node.prev == prev && (prev != null ==> prev.next == node && node.next == old(prev.next))
      ensures node == null ==> DataOf(order) == old(DataOf(order))
      ensures node != null ==>
        var pos := SlotOf(old(layout), parent, prev);
        pos <= |old(order)| && DataOf(order) == old(DataOf(order))[..pos] + [data] + old(DataOf(order))[pos..]
    {
      hide WellLinked, InsertNode, Inserted, Kids, Place, SlotOf, LastChild, Carries;
      prev := null;
      var last := FindSibling(parent, after);
      if after.Behind? && last == null {
        return null, null;
      }
      prev := last;
      ghost var pos := SlotOf(layout, parent, prev);
      SlotIsPlace(layout, order, parent, prev);
      node := new TreeNode(data);
      InsertKeepsLinked(layout, order, parent, prev, pos, node);
      RootStays(layout, order, parent, prev, pos, node);
      OrderIsIn(layout, order);
      LinkIn(parent, last, node, pos);
      DataOfInserted(order, pos, node);
      layout, order := InsertNode(layout, parent, prev, pos, node), Inserted(order, pos, node);
    }

    static lemma OrderIsIn(l: Layout<T>, order: seq<TreeNode<T>>)
      requires WellLinked(l, order)
      ensures forall k :: 0 <= k < |order| ==> order[k] in l
    {
    }

    static lemma DataOfInserted(nodes: seq<TreeNode<T>>, pos: nat, node: TreeNode<T>)
      requires pos <= |nodes|
      ensures DataOf(Inserted(nodes, pos, node)) == DataOf(nodes)[..pos] + [node.data] + DataOf(nodes)[pos..]
    {
    }

    static lemma DataOfErased(nodes: seq<TreeNode<T>>, from: nat, k: nat)
      requires from + k <= |nodes|
      ensures DataOf(Erased(nodes, from, k)) == DataOf(nodes)[..from] + DataOf(nodes)[from + k..]
    {
    }

    /** The new links, in the node and in up to three others. */
    method LinkIn(parent: TreeNode<T>, prev: TreeNode?<T>, node: TreeNode<T>, ghost pos: nat)
      requires Carries(layout) && parent in layout && (prev != null ==> prev in layout && layout[prev].parent == parent)
      requires prev != null && layout[prev].next != null ==> layout[prev].next in layout && layout[prev].next != prev
      requires node !in layout && parent != prev && node.child == null && node.count == 0
      requires node.next == null && node.prev == null && forall k :: 0 <= k < |order| ==> order[k] in layout
      modifies node, layout.Keys
      ensures Carries(InsertNode(layout, parent, prev, pos, node))
      ensures node.data == old(node.data) && DataOf(order) == old(DataOf(order))
      ensures node.parent == parent && node.prev == prev && (prev != null ==> prev.next == node && node.next == old(prev.next))
      ensures prev == null ==> node.next == null
    {
      hide InsertNode;
      node.parent := parent;
      node.prev := prev;
      if prev == null {
        parent.child := node;
      } else {
        var next := prev.next;
        prev.next := node;
        node.next := next;
        if next != null {
          next.prev := node;
        }
      }
      parent.count := parent.count + 1;
      InsertKeys(layout, parent, prev, pos, node);
      forall m | m in InsertNode(layout, parent, prev, pos, node)
        ensures var i := InsertNode(layout, parent, prev, pos, node)[m];
          m.parent == i.parent && m.prev == i.prev && m.next == i.next && m.child == i.child && m.count == i.count
      {
        InsertedLinks(layout, parent, prev, pos, node, m);
      }
    }

    static lemma InsertedLinks(l: Layout<T>, p: TreeNode<T>, prev: TreeNode?<T>, pos: nat, node: TreeNode<T>, m: TreeNode<T>)
      requires p in l && (prev != null ==> prev in l) && node !in l && (m in l || m == node)
      ensures var l' := InsertNode(l, p, prev, pos, node);
        var next := if prev == null then null else l[prev].next;
        && m in l'
        && l'[m].parent == (if m == node then p else l[m].parent)
        && l'[m].prev == (if m == node then prev else if m == next then node else l[m].prev)
        && l'[m].next == (if m == node then next else if m == prev then node else l[m].next)
        && l'[m].child == (if m == node then null else if m == p && prev == null then node else l[m].child)
        && l'[m].count == (if m == node then 0 else if m == p then l[m].count + 1 else l[m].count)
    {
    }

    /** The child behind which to insert: the last one, or the given one if it is a child. */
    method FindSibling(parent: TreeNode<T>, after: After<T>) returns (sibling: TreeNode?<T>)
      requires Valid() && parent in layout && !after.First?
      ensures sibling != null ==> sibling in Kids(layout, parent)
      ensures sibling == null ==> after.Behind? || layout[parent].child == null
      ensures after.Last? ==> sibling == LastChild(layout, parent)
      ensures after.Behind? ==> sibling == if after.sibling in Kids(layout, parent) then after.sibling else null
    {
      assert NodeOk(layout, order, parent);
      KidsAreInside(layout, order, parent);
      sibling := null;
      var child := parent.child;
      ghost var at := layout[parent].at + 1;
      while child != null
        invariant child != null ==> child in Kids(layout, parent) && layout[child].at == at
        invariant child == null ==> at == layout[parent].End()
        invariant sibling == null <==> child == parent.child
        invariant sibling != null ==> sibling in Kids(layout, parent) && sibling.next == child
        invariant after.Behind? ==> forall m :: m in Kids(layout, parent) && layout[m].at < at ==> m != after.sibling
        decreases layout[parent].End() - at
      {
        assert NodeOk(layout, order, child);
        if after.Behind? && child == after.sibling {
          return child;
        }
        NoKidBetween(layout, order, parent, child);
        sibling := child;
        child := child.next;
        at := layout[sibling].End();
        if child != null {
          assert NodeOk(layout, order, child);
        }
      }
      if sibling != null {
        LastChildIs(layout, order, parent, sibling);
      }
      if after.Behind? {
        sibling := null;
      }
    }

    /** Where a child behind `prev`, or an only child, stands in the preorder. */
    static ghost function SlotOf(l: Layout<T>, parent: TreeNode<T>, prev: TreeNode?<T>): nat {
      if prev != null && prev in l then l[prev].End() else if parent in l then l[parent].End() else 0
    }

    /** The child that has no next sibling. */
    static ghost function LastChild(l: Layout<T>, parent: TreeNode<T>): TreeNode?<T> {
      if exists m :: m in Kids(l, parent) && l[m].next == null
      then var m :| m in Kids(l, parent) && l[m].next == null; m else null
    }

    static lemma LastChildIs(l: Layout<T>, order: seq<TreeNode<T>>, parent: TreeNode<T>, m: TreeNode<T>)
      requires WellLinked(l, order) && parent in l && m in Kids(l, parent) && l[m].next == null
      ensures LastChild(l, parent) == m
    {
      var last := LastChild(l, parent);
      assert NodeOk(l, order, last) && NodeOk(l, order, m);
      assert PairOk(l, last, m) && PairOk(l, m, last);
    }

    static lemma SlotIsPlace(l: Layout<T>, order: seq<TreeNode<T>>, parent: TreeNode<T>, prev: TreeNode?<T>)
      requires WellLinked(l, order) && parent in l
      requires if prev == null then l[parent].child == null else prev in Kids(l, parent)
      ensures Place(l, order, parent, prev, SlotOf(l, parent, prev)) && parent != prev
      ensures prev != null && l[prev].next != null ==> l[prev].next in l && l[prev].next != prev
    {
      assert NodeOk(l, order, parent);
      if prev != null {
        assert NodeOk(l, order, prev);
      }
    }

    static lemma RootStays(l: Layout<T>, order: seq<TreeNode<T>>, p: TreeNode<T>, prev: TreeNode?<T>, pos: nat, node: TreeNode<T>)
      requires Place(l, order, p, prev, pos)
      ensures pos <= |order| && order != [] && Inserted(order, pos, node) != [] && Inserted(order, pos, node)[0] == order[0]
    {
      PlaceFacts(l, order, p, prev, pos, p);
    }

    static lemma KidsAreInside(l: Layout<T>, order: seq<TreeNode<T>>, p: TreeNode<T>)
      requires WellLinked(l, order) && p in l
      ensures forall m :: m in Kids(l, p) ==> l[p].at < l[m].at < l[p].End()
    {
      forall m | m in Kids(l, p) ensures l[p].at < l[m].at < l[p].End() {
        assert NodeOk(l, order, m);
      }
    }

    static lemma NoKidBetween(l: Layout<T>, order: seq<TreeNode<T>>, p: TreeNode<T>, c: TreeNode<T>)
      requires WellLinked(l, order) && p in l && c in Kids(l, p)
      ensures forall m :: m in Kids(l, p) && l[c].at <= l[m].at < l[c].End() ==> m == c
    {
      assert NodeOk(l, order, c);
      forall m | m in Kids(l, p) && l[c].at <= l[m].at < l[c].End() ensures m == c {
        assert PairOk(l, c, m);
      }
    }

    /** Takes a subtree out of the tree, frees it, and returns what follows it in preorder. */
    method Erase(node: TreeNode<T>) returns (next: TreeNode?<T>, freed: seq<TreeNode<T>>)
      requires Valid() && node in layout
      modifies this, layout.Keys
      ensures Valid()
      ensures var from, k := old(layout[node].at), old(layout[node].size);
        && from + k <= |old(order)|
        && multiset(freed) == multiset(old(order)[from..from + k])
        && order == Erased(old(order), from, k)
        && next == (if from < |order| then order[from] else null)
      ensures layout.Keys == old(layout).Keys - (set m | m in freed)
      ensures var from, k := old(layout[node].at), old(layout[node].size);
        from + k <= |old(order)| && DataOf(order) == old(DataOf(order))[..from] + old(DataOf(order))[from + k..]
    {
      assert NodeOk(layout, order, node) && NodeOk(layout, order, order[0]);
      if node == root {
        root := null;
        freed := FreeTreeNode(node, layout, order);
        FreedKeys(layout, order, node, freed);
        RootHoldsAll(layout, order);
        DataOfErased(order, 0, |order|);
        layout, order := map[], [];
        return null, freed;
      }
      next, freed := EraseBelow(node.parent, node);
    }

    method EraseBelow(parent: TreeNode<T>, node: TreeNode<T>) returns (next: TreeNode?<T>, freed: seq<TreeNode<T>>)
      requires Valid() && Below(layout, order, parent, node) && layout[node].End() <= |order|
      modifies this, layout.Keys
      ensures Valid()
      ensures var from, k := old(layout[node].at), old(layout[node].size);
        && multiset(freed) == multiset(old(order)[from..from + k])
        && order == Erased(old(order), from, k)
        && layout == EraseSubtree(old(layout), parent, node)
        && next == (if from < |order| then order[from] else null)
      ensures layout.Keys == old(layout).Keys - (set m | m in freed)
      ensures var from, k := old(layout[node].at), old(layout[node].size);
        from + k <= |old(order)| && DataOf(order) == old(DataOf(order))[..from] + old(DataOf(order))[from + k..]
    {
      hide WellLinked, EraseSubtree, Erased, Inside, NodeOk;
      ghost var l, o := layout, order;
      OrderIsIn(l, o);
      EraseFollows(l, o, parent, node);
      var nextSibling := node.next;
      freed := UnlinkAndFree(node, parent);
      DataOfErased(o, l[node].at, l[node].size);
      layout, order := EraseSubtree(l, parent, node), Erased(o, l[node].at, l[node].size);
      next := SiblingOrClimb(nextSibling, parent, layout, order, l[node].at);
    }

    method UnlinkAndFree(node: TreeNode<T>, parent: TreeNode<T>) returns (freed: seq<TreeNode<T>>)
      requires Carries(layout) && Below(layout, order, parent, node) && NodeOk(layout, order, node)
      requires forall k :: 0 <= k < |order| ==> order[k] in layout
      modifies layout.Keys
      ensures Carries(EraseSubtree(layout, parent, node)) && EraseSubtree(layout, parent, node).Keys <= layout.Keys
      ensures multiset(freed) == multiset(order[layout[node].at..layout[node].End()])
      ensures EraseSubtree(layout, parent, node).Keys == layout.Keys - (set m | m in freed)
      ensures DataOf(order) == old(DataOf(order))
    {
      hide WellLinked, EraseSubtree, Inside;
      Unlink(node, parent);
      freed := FreeTreeNode(node, layout, order);
      FreedKeys(layout, order, node, freed);
      ErasedKeys(layout, order, parent, node, freed);
    }

    static lemma EraseFollows(l: Layout<T>, order: seq<TreeNode<T>>, p: TreeNode<T>, n: TreeNode<T>)
      requires Below(l, order, p, n) && l[n].End() <= |order|
      ensures NodeOk(l, order, n)
      ensures var l', order' := EraseSubtree(l, p, n), Erased(order, l[n].at, l[n].size);
        && WellLinked(l', order') && order != [] && order' != [] && order'[0] == order[0]
        && if l[n].next != null then l[n].next in l' && l[n].at < |order'| && order'[l[n].at] == l[n].next
           else p in l' && l'[p].End() == l[n].at <= |order'|
    {
      hide WellLinked, EraseSubtree, Erased, NodeOk;
      EraseKeepsLinked(l, order, p, n);
      NextAfterErase(l, order, p, n);
      FirstStays(l, order, p, n);
    }

    static method SiblingOrClimb(sibling: TreeNode?<T>, parent: TreeNode<T>, ghost l: Layout<T>, ghost order: seq<TreeNode<T>>, ghost pos: nat)
      returns (next: TreeNode?<T>)
      requires WellLinked(l, order) && Carries(l)
      requires if sibling != null then pos < |order| && order[pos] == sibling
               else parent in l && l[parent].End() == pos <= |order|
      ensures next == (if pos < |order| then order[pos] else null)
    {
      if sibling != null {
        return sibling;
      }
      next := Climb(parent, l, order, pos);
    }

    static lemma RootHoldsAll(l: Layout<T>, order: seq<TreeNode<T>>)
      requires WellLinked(l, order) && order != []
      ensures forall m :: m in l ==> Inside(l, order[0], m)
    {
      assert NodeOk(l, order, order[0]);
      forall m | m in l ensures Inside(l, order[0], m) {
        assert NodeOk(l, order, m);
      }
    }

    static lemma FreedKeys(l: Layout<T>, order: seq<TreeNode<T>>, n: TreeNode<T>, freed: seq<TreeNode<T>>)
      requires WellLinked(l, order) && n in l && l[n].End() <= |order|
      requires multiset(freed) == multiset(order[l[n].at..l[n].End()])
      ensures forall m :: m in freed <==> m in l && Inside(l, n, m)
    {
      var part := order[l[n].at..l[n].End()];
      forall m ensures m in freed <==> m in l && Inside(l, n, m) {
        assert m in freed <==> m in multiset(freed);
        assert m in part <==> m in multiset(part);
        if m in part {
          var k :| 0 <= k < |part| && part[k] == m;
          assert order[l[n].at + k] == m;
        }
        if m in l && Inside(l, n, m) {
          assert NodeOk(l, order, m);
          assert part[l[m].at - l[n].at] == m;
        }
      }
    }

    static lemma ErasedKeys(l: Layout<T>, order: seq<TreeNode<T>>, p: TreeNode<T>, n: TreeNode<T>, freed: seq<TreeNode<T>>)
      requires p in l && n in l && forall m :: m in freed <==> m in l && Inside(l, n, m)
      ensures EraseSubtree(l, p, n).Keys == l.Keys - (set m | m in freed)
    {
    }

    static lemma FirstStays(l: Layout<T>, order: seq<TreeNode<T>>, p: TreeNode<T>, n: TreeNode<T>)
      requires Below(l, order, p, n) && l[n].End() <= |order|
      ensures order != [] && Erased(order, l[n].at, l[n].size) != [] && Erased(order, l[n].at, l[n].size)[0] == order[0]
      ensures NodeOk(l, order, n)
    {
      assert NodeOk(l, order, n);
    }

    /** The sibling, or the parent's new end, stands where the subtree stood. */
    static lemma NextAfterErase(l: Layout<T>, order: seq<TreeNode<T>>, p: TreeNode<T>, n: TreeNode<T>)
      requires Below(l, order, p, n) && l[n].End() <= |order|
      ensures var l', order' := EraseSubtree(l, p, n), Erased(order, l[n].at, l[n].size);
        if l[n].next != null then l[n].next in l' && l[n].at < |order'| && order'[l[n].at] == l[n].next
        else p in l' && l'[p].End() == l[n].at <= |order'|
    {
      EraseFacts(l, order, p, n, p);
      EraseFacts(l, order, p, n, n);
      if l[n].next != null {
        EraseFacts(l, order, p, n, l[n].next);
      }
    }

    method Unlink(node: TreeNode<T>, parent: TreeNode<T>)
      requires Carries(layout) && Below(layout, order, parent, node)
      requires forall k :: 0 <= k < |order| ==> order[k] in layout
      modifies layout.Keys
      ensures Carries(EraseSubtree(layout, parent, node))
      ensures forall m :: m in layout && Inside(layout, node, m) ==>
        m.child == layout[m].child && (m != node ==> m.next == layout[m].next)
      ensures DataOf(order) == old(DataOf(order))
    {
      hide EraseSubtree, Inside;
      NeighboursOf(layout, order, parent, node);
      var next, prev := node.next, node.prev;
      if prev != null {
        prev.next := next;
      } else {
        parent.child := next;
      }
      if next != null {
        next.prev := prev;
      }
      parent.count := parent.count - 1;
      forall m | m in EraseSubtree(layout, parent, node)
        ensures var i := EraseSubtree(layout, parent, node)[m];
          m.parent == i.parent && m.prev == i.prev && m.next == i.next && m.child == i.child && m.count == i.count
      {
        ErasedLinks(layout, parent, node, m);
      }
    }

    static lemma NeighboursOf(l: Layout<T>, order: seq<TreeNode<T>>, p: TreeNode<T>, n: TreeNode<T>)
      requires Below(l, order, p, n)
      ensures l[p].count > 0 && !Inside(l, n, p)
      ensures l[n].prev != null ==> l[n].prev in l && !Inside(l, n, l[n].prev) && l[n].prev != p
      ensures l[n].next != null ==> l[n].next in l && !Inside(l, n, l[n].next) && l[n].next != p && l[n].next != l[n].prev
    {
      EraseFacts(l, order, p, n, p);
      EraseFacts(l, order, p, n, n);
      assert n in Kids(l, p);
      if l[n].prev != null {
        EraseFacts(l, order, p, n, l[n].prev);
      }
      if l[n].next != null {
        EraseFacts(l, order, p, n, l[n].next);
      }
    }

    static lemma ErasedLinks(l: Layout<T>, p: TreeNode<T>, n: TreeNode<T>, m: TreeNode<T>)
      requires p in l && n in l && m in EraseSubtree(l, p, n)
      ensures m in l && !Inside(l, n, m)
      ensures var i := EraseSubtree(l, p, n)[m];
        && i.parent == l[m].parent
        && i.prev == (if m == l[n].next then l[n].prev else l[m].prev)
        && i.next == (if m == l[n].prev then l[n].next else l[m].next)
        && i.child == (if m == p && l[n].prev == null then l[n].next else l[m].child)
        && i.count == (if m == p && l[m].count > 0 then l[m].count - 1 else l[m].count)
    {
    }

    /** What is left of `Valid` for a traversal: counts and back links do not matter to it. */
    ghost predicate Walkable()
      reads this, layout.Keys
    {
      && root == (if order == [] then null else order[0])
      && WellLinked(layout, order) && CarriesDown(layout)
    }

    /** Inserts a child in front of the others. The pointer to the first child is only set
        when there was none: otherwise the tree stays as it was, but for a count and a back
        link, and the new node is not part of it. */
    method InsertFirst(parent: TreeNode<T>, data: T) returns (node: TreeNode<T>)
      requires Valid() && parent in layout
      modifies this, layout.Keys
      ensures fresh(node) && node.data == data && node.parent == parent && node.next == old(parent.child) && node.prev == null
      ensures old(parent.child) == null ==>
        && Valid() && Place(old(layout), old(order), parent, null, SlotOf(old(layout), parent, null))
        && layout == InsertNode(old(layout), parent, null, SlotOf(old(layout), parent, null), node)
        && order == Inserted(old(order), SlotOf(old(layout), parent, null), node)
      ensures old(parent.child) != null ==>
        && Walkable() && layout == old(layout) && order == old(order) && node !in layout
        && parent.child == old(parent.child) && parent.child.prev == node && parent.child in layout
        && DataOf(order) == old(DataOf(order))
      ensures old(parent.child) == null ==>
        var pos := SlotOf(old(layout), parent, null);
        pos <= |old(order)| && DataOf(order) == old(DataOf(order))[..pos] + [data] + old(DataOf(order))[pos..]
    {
      assert NodeOk(layout, order, parent);
      var child := parent.child;
      node := new TreeNode(data);
      if child == null {
        InsertOnly(parent, node);
      } else {
        PutInFront(parent, child, node);
      }
    }

    method InsertOnly(parent: TreeNode<T>, node: TreeNode<T>)
      requires Valid() && parent in layout && layout[parent].child == null && node !in layout
      requires node.next == null && node.prev == null && node.child == null && node.count == 0
      modifies this, layout.Keys, node
      ensures Valid() && node.parent == parent && node.next == null && node.prev == null && node.data == old(node.data)
      ensures Place(old(layout), old(order), parent, null, SlotOf(old(layout), parent, null))
      ensures layout == InsertNode(old(layout), parent, null, SlotOf(old(layout), parent, null), node)
      ensures order == Inserted(old(order), SlotOf(old(layout), parent, null), node)
      ensures var pos := SlotOf(old(layout), parent, null);
        pos <= |old(order)| && DataOf(order) == old(DataOf(order))[..pos] + [node.data] + old(DataOf(order))[pos..]
    {
      hide WellLinked, Place, SlotOf, Inserted, Carries;
      OrderIsIn(layout, order);
      ghost var pos := SlotOf(layout, parent, null);
      SlotIsPlace(layout, order, parent, null);
      InsertKeepsLinked(layout, order, parent, null, pos, node);
      RootStays(layout, order, parent, null, pos, node);
      LinkIn(parent, null, node, pos);
      DataOfInserted(order, pos, node);
      InsertedLinks(layout, parent, null, pos, node, node);
      InsertKeys(layout, parent, null, pos, node);
      layout, order := InsertNode(layout, parent, null, pos, node), Inserted(order, pos, node);
    }

    method PutInFront(parent: TreeNode<T>, child: TreeNode<T>, node: TreeNode<T>)
      requires Valid() && parent in layout && child in layout && layout[parent].child == child && node !in layout
      requires node.prev == null
      modifies layout.Keys, node
      ensures Walkable() && node.parent == parent && node.next == child && node.prev == null && node.data == old(node.data)
      ensures parent.child == child && child.prev == node
      ensures DataOf(order) == old(DataOf(order))
    {
      hide WellLinked;
      node.parent := parent;
      node.next := child;
      child.prev := node;
      parent.count := parent.count + 1;
    }

    /** The node put in front of a first child is lost: it is in no preorder, and no layout
        whatever describes the links any more. */
    lemma LostFirstChild(parent: TreeNode<T>, node: TreeNode<T>, l: Layout<T>, o: seq<TreeNode<T>>)
      requires parent.child != null && parent.child.prev == node && node.prev == null && node.parent == parent
      requires node != parent.child && parent in l
      ensures !(WellLinked(l, o) && Carries(l))
    {
      if WellLinked(l, o) && Carries(l) {
        FirstHasNoPrev(l, o, parent);
      }
    }

    static lemma FirstHasNoPrev(l: Layout<T>, o: seq<TreeNode<T>>, p: TreeNode<T>)
      requires WellLinked(l, o) && p in l && l[p].child != null
      ensures l[p].child in l && l[l[p].child].prev == null
    {
      assert NodeOk(l, o, p);
      var c := l[p].child;
      assert NodeOk(l, o, c);
      if l[c].prev != null {
        PrevIsEarlier(l, o, c);
      }
    }

    static lemma PrevIsEarlier(l: Layout<T>, o: seq<TreeNode<T>>, m: TreeNode<T>)
      requires WellLinked(l, o) && m in l && l[m].prev != null
      ensures l[m].prev in l && l[m].parent in l && l[l[m].parent].at < l[l[m].prev].at < l[m].at
    {
      assert NodeOk(l, o, m);
      assert NodeOk(l, o, l[m].prev);
    }
  }
}
