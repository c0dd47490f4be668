/** The doubly linked list of the container library: head and tail pointers and a count,
    all updated in place. `nodes` is the list that the pointers stand for. */
module LinkedList {

  class ListNode<T> {
    var data: T
    var prev: ListNode?<T>
    var next: ListNode?<T>

    constructor (data: T)
      ensures this.data == data && prev == null && next == null
    {
      this.data := data;
      prev, next := null, null;
    }
  }

  class List<T> {
    var head: ListNode?<T>
    var tail: ListNode?<T>
    var count: nat
    ghost var nodes: seq<ListNode<T>>
    ghost var repr: set<object>

    ghost predicate Valid()
      reads this, repr
      ensures Valid() ==> this in repr
    {
      && this in repr && (forall n :: n in nodes ==> n in repr)
      && count == |nodes|
      && Ends(nodes) && Chained(nodes)
      && Distinct(nodes)
    }

    static ghost predicate Distinct(ns: seq<ListNode<T>>) {
      forall i, j :: 0 <= i < j < |ns| ==> ns[i] != ns[j]
    }

    ghost predicate Ends(ns: seq<ListNode<T>>)
      reads this
    {
      && head == (if ns == [] then null else ns[0])
      && tail == (if ns == [] then null else ns[|ns| - 1])
    }

    static ghost predicate Chained(ns: seq<ListNode<T>>)
      reads ns
    {
      && (ns != [] ==> ns[0].prev == null && ns[|ns| - 1].next == null)
      && (forall i, j {:trigger ns[i], ns[j]} :: 0 <= i && i + 1 == j < |ns| ==>
            ns[i].next == ns[j] && ns[j].prev == ns[i])
    }

    constructor ()
      ensures Valid() && nodes == [] && repr == {this}
    {
      head, tail, count, nodes, repr := null, null, 0, [], {this};
    }

    method AddHead(data: T) returns (node: ListNode<T>)
      requires Valid()
      modifies repr
      ensures Valid() && fresh(node) && repr == old(repr) + {node} && nodes == [node] + old(nodes)
      ensures node.data == data && forall n :: n in old(nodes) ==> n.data == old(n.data)
    {
      var first := head;
      node := new ListNode(data);
      head := node;
      node.next := first;
      if first != null {
        first.prev := node;
      } else if tail == null {
        tail := node;
      }
      count := count + 1;
      ghost var was := nodes;
      nodes, repr := [node] + nodes, repr + {node};
      assert forall i :: 0 < i < |nodes| ==> nodes[i] == was[i - 1];
    }

    method AddTail(data: T) returns (node: ListNode<T>)
      requires Valid()
      modifies repr
      ensures Valid() && fresh(node) && repr == old(repr) + {node} && nodes == old(nodes) + [node]
      ensures node.data == data && forall n :: n in old(nodes) ==> n.data == old(n.data)
    {
      var last := tail;
      node := new ListNode(data);
      tail := node;
      node.prev := last;
      if last != null {
        last.next := node;
      } else if head == null {
        head := node;
      }
      count := count + 1;
      nodes, repr := nodes + [node], repr + {node};
      assert forall i :: 0 <= i < |old(nodes)| ==> nodes[i] == old(nodes)[i];
    }

    /** Unlinks the node at position `k` of this list and returns the one that followed it. */
    method Erase(node: ListNode<T>) returns (next: ListNode?<T>, ghost k: nat)
      requires Valid() && node in nodes
      modifies repr
      ensures Valid() && repr == old(repr) && k < |old(nodes)| && old(nodes)[k] == node
      ensures nodes == old(nodes)[..k] + old(nodes)[k + 1..]
      ensures next == old(node.next)
      ensures forall n :: n in old(nodes) ==> n.data == old(n.data)
    {
      k :| 0 <= k < |nodes| && nodes[k] == node;
      next := Unlink(node, k);
      count := count - 1;
      nodes := nodes[..k] + nodes[k + 1..];
    }

    method Unlink(node: ListNode<T>, ghost k: nat) returns (next: ListNode?<T>)
      requires Ends(nodes) && Chained(nodes) && k < |nodes| && nodes[k] == node
      requires Distinct(nodes)
      modifies this`head, this`tail, nodes`prev, nodes`next
      ensures next == old(node.next)
      ensures Ends(nodes[..k] + nodes[k + 1..]) && Chained(nodes[..k] + nodes[k + 1..])
    {
      var prev := node.prev;
      next := node.next;
      assert prev == if k == 0 then null else nodes[k - 1];
      assert next == if k == |nodes| - 1 then null else nodes[k + 1];
      if prev == null {
        head := next;
      } else {
        prev.next := next;
      }
      if next == null {
        tail := prev;
      } else {
        next.prev := prev;
      }
      ghost var left := nodes[..k] + nodes[k + 1..];
      forall i, j | 0 <= i && i + 1 == j < |left|
        ensures left[i].next == left[j] && left[j].prev == left[i]
      {
        assert left[i] == nodes[if i < k then i else i + 1] && left[j] == nodes[if j < k then j else j + 1];
      }
    }

    /** Walks the list and releases every node, first to last. */
    method Clear() returns (freed: seq<ListNode<T>>)
      requires Valid()
      modifies this
      ensures Valid() && nodes == [] && repr == {this} && freed == old(nodes)
    {
      freed := [];
      var node := head;
      while node != null
        invariant |freed| <= |nodes| && freed == nodes[..|freed|]
        invariant node == if |freed| == |nodes| then null else nodes[|freed|]
        decreases |nodes| - |freed|
      {
        assert node.next == if |freed| == |nodes| - 1 then null else nodes[|freed| + 1];
        freed := freed + [node];
        node := node.next;
      }
      head, tail, count, nodes, repr := null, null, 0, [], {this};
    }
  }
}
