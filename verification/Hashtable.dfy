/** The chained hash table of the container library, with its bucket lists in the heap: an
    array of list pointers that is filled on demand, and a table that is replaced by one of
    twice the size when too many buckets are in use. */
module Hashtable {
  import opened Wrappers
  import opened Bytes
  import opened LinkedList
  import opened HashBuckets

  const MIN_HASH_SIZE: nat := 0x100
  const MAX_HASH_SIZE: nat := 0x10000

  function Up(n: Word): Word { (n + 1) % TWO32 }
  function Down(n: Word): Word { (n + TWO32 - 1) % TWO32 }

  /** `Hashtable_` */
  class Table<K(!new), V> {
    const hash: K -> Word
    const cmp: (K, K) -> int
    const size: nat
    const limit: nat
    const lists: array<List?<HashNode<K, V>>>
    var usedCount: Word
    var nodeCount: nat

    ghost var buckets: Buckets<K, V>
    /** Nodes that ClearHashtable has freed without counting them out. */
    ghost var cleared: nat
    /** The table itself with its hash nodes, and all of that with the lists. */
    ghost var cells: set<object>
    ghost var repr: set<object>

    ghost predicate Valid()
      reads this, repr
      ensures Valid() ==> this in repr && lists in repr
    {
      Linked() && nodeCount == |Flat(buckets)| + cleared
    }

    ghost predicate Linked()
      reads this, repr
    {
      && this in cells && lists in cells && cells <= repr
      && 0 < size <= MAX_HASH_SIZE && lists.Length == |buckets| == size
      && Sound(hash, cmp) && Hashed(hash, cmp, buckets)
      && (forall i {:trigger lists[i]} {:trigger buckets[i]} :: 0 <= i < size ==> Hangs(lists[i], buckets[i]))
      && (forall i, j {:trigger lists[i], lists[j]} :: 0 <= i < j < size && lists[i] != null && lists[j] != null ==>
            lists[i].repr !! lists[j].repr)
    }

    /** The list hangs in the table and carries the nodes `b`. */
    ghost predicate Hangs(list: List?<HashNode<K, V>>, b: seq<HashNode<K, V>>)
      reads this, repr
    {
      if list == null then b == []
      else
        && list in repr && list.repr <= repr && list.repr !! cells
        && list.Valid() && |list.nodes| == |b|
        && forall j :: 0 <= j < |b| ==>
             b[j] in cells && b[j] in repr && list.nodes[j].data == b[j] && b[j].listNode == list.nodes[j]
    }

    ghost function Model(): map<K, V>
      reads this
    {
      ToMap(Flat(buckets))
    }

    constructor (size: nat, hash: K -> Word, cmp: (K, K) -> int)
      requires Sound(hash, cmp) && 0 < size <= MAX_HASH_SIZE
      ensures Valid() && fresh(repr) && Flat(buckets) == []
      ensures this.size == size && this.limit == size * 3 / 4 && this.hash == hash && this.cmp == cmp
      ensures usedCount == 0 && nodeCount == 0
    {
      this.size, this.limit, this.hash, this.cmp := size, size * 3 / 4, hash, cmp;
      lists := new List?<HashNode<K, V>>[size](_ => null);
      usedCount, nodeCount, cleared := 0, 0, 0;
      buckets := seq(size, _ => []);
      new;
      EmptyStretch(buckets, 0, size);
      cells, repr := {this, lists}, {this, lists};
    }

    /** `_Add2Hashtable`: the key is known to be new. */
    method AddNode(key: K, data: V, h: Word) returns (node: HashNode<K, V>)
      requires Valid() && h == hash(key) && !Contains(cmp, Model(), key)
      modifies repr
      ensures Valid() && fresh(repr - old(repr)) && fresh(node) && cleared == old(cleared)
      ensures Model() == old(Model())[key := data]
      ensures node.key == key && node.data == data && node.hash == h && node.index == h % size
      ensures buckets == old(buckets)[node.index := old(buckets)[node.index] + [node]]
      ensures usedCount == if old(buckets)[node.index] == [] then Up(old(usedCount)) else old(usedCount)
    {
      hide Sound, Hashed, ToMap, Flat, List.Ends, List.Chained, List.Distinct;
      var index := h % size;
      MakeList(index);
      node := new HashNode(key, data, h, index);
      InsertKeepsHashed(hash, cmp, buckets, node);
      InsertAddsEntry(hash, cmp, buckets, node);
      Hang(lists[index], node);
      CountNode(index);
    }

    /** Makes the bucket's list if there is none. */
    method MakeList(index: nat)
      requires Linked() && index < size
      modifies lists, this`repr
      ensures Linked() && lists[index] != null && fresh(repr - old(repr)) && old(repr) <= repr
    {
      hide Sound, Hashed;
      if lists[index] == null {
        var made := new List<HashNode<K, V>>();
        lists[index] := made;
        repr := repr + {made};
      }
    }

    method Hang(list: List<HashNode<K, V>>, node: HashNode<K, V>)
      requires Linked() && node.index < size && lists[node.index] == list && node !in repr
      requires Hashed(hash, cmp, buckets[node.index := buckets[node.index] + [node]])
      modifies this`buckets, this`repr, this`cells, list.repr, node
      ensures Linked() && repr == old(repr) + {node, node.listNode} && fresh(node.listNode)
      ensures buckets == old(buckets)[node.index := old(buckets)[node.index] + [node]]
      ensures lists[node.index] == list
    {
      hide Sound, Hashed, List.Ends, List.Chained, List.Distinct;
      ghost var i, b := node.index, buckets[node.index];
      assert Hangs(list, b);
      var link := list.AddTail(node);
      node.listNode := link;
      buckets := buckets[i := b + [node]];
      cells, repr := cells + {node}, repr + {node, link};
      assert Hangs(list, b + [node]);
      forall k | 0 <= k < size ensures Hangs(lists[k], buckets[k]) {
        assert k != i ==> old(Hangs(lists[k], buckets[k]));
      }
    }

    method CountNode(index: nat)
      requires Linked() && index < size && lists[index] != null
      modifies this`usedCount, this`nodeCount
      ensures Linked() && nodeCount == old(nodeCount) + 1
      ensures usedCount == if |buckets[index]| == 1 then Up(old(usedCount)) else old(usedCount)
    {
      hide Sound, Hashed;
      assert Hangs(lists[index], buckets[index]);
      if lists[index].count == 1 {
        usedCount := Up(usedCount);
      }
      nodeCount := nodeCount + 1;
    }

    ghost predicate Stored(node: HashNode<K, V>)
      reads this
    {
      node.index < |buckets| && node in buckets[node.index]
    }

    /** The first node of a bucket list whose key compares equal. */
    method Search(key: K, index: nat) returns (found: HashNode?<K, V>)
      requires Valid() && index < size
      ensures found == null ==> forall j :: 0 <= j < |buckets[index]| ==> cmp(key, buckets[index][j].key) != 0
      ensures found != null ==> found in buckets[index] && cmp(key, found.key) == 0
    {
      var list := lists[index];
      assert Hangs(list, buckets[index]);
      if list == null {
        return null;
      }
      var link := list.head;
      ghost var j := 0;
      while link != null
        invariant j <= |list.nodes| && link == if j == |list.nodes| then null else list.nodes[j]
        invariant forall m :: 0 <= m < j ==> cmp(key, buckets[index][m].key) != 0
        decreases |list.nodes| - j
      {
        if cmp(key, link.data.key) == 0 {
          return link.data;
        }
        assert j + 1 < |list.nodes| ==> link.next == list.nodes[j + 1];
        link, j := link.next, j + 1;
      }
      return null;
    }

    /** `NULL == pList_ || 0 == pList_->nCount` */
    method IsEmptyList(index: nat) returns (empty: bool)
      requires Valid() && index < size
      ensures empty <==> buckets[index] == []
    {
      assert Hangs(lists[index], buckets[index]);
      empty := lists[index] == null || lists[index].count == 0;
    }

    /** The first node of the first non-empty bucket from `from` on. */
    method FirstFrom(from: nat) returns (node: HashNode?<K, V>)
      requires Valid() && from <= size
      ensures |FlatTo(buckets, from)| <= |Flat(buckets)|
      ensures node == if |FlatTo(buckets, from)| == |Flat(buckets)| then null else Flat(buckets)[|FlatTo(buckets, from)|]
      ensures node != null ==> Stored(node)
    {
      hide Sound, FlatTo;
      FlatGrows(buckets, from, size);
      var i := from;
      while i < size
        invariant from <= i <= size && forall m :: from <= m < i ==> buckets[m] == []
      {
        var list := lists[i];
        assert Hangs(list, buckets[i]);
        if list != null && list.head != null {
          EmptyStretch(buckets, from, i);
          FlatAt(buckets, i, 0);
          assert list.nodes[0].data == buckets[i][0];
          assert buckets[i][0].index == i;
          return list.head.data;
        }
        i := i + 1;
      }
      EmptyStretch(buckets, from, size);
      return null;
    }

    method GetFirst() returns (node: HashNode?<K, V>)
      requires Valid()
      ensures node == if Flat(buckets) == [] then null else Flat(buckets)[0]
      ensures node != null ==> Stored(node)
    {
      hide Sound, Hashed;
      if nodeCount == 0 {
        return null;
      }
      node := FirstFrom(0);
    }

    /** The position of a stored node in the enumeration. */
    lemma PositionOf(node: HashNode<K, V>) returns (j: nat)
      requires Valid() && Stored(node)
      ensures j < |buckets[node.index]| && buckets[node.index][j] == node
      ensures |FlatTo(buckets, node.index)| + j < |Flat(buckets)|
      ensures Flat(buckets)[|FlatTo(buckets, node.index)| + j] == node
    {
      hide Sound, Hashed;
      j :| 0 <= j < |buckets[node.index]| && buckets[node.index][j] == node;
      FlatAt(buckets, node.index, j);
    }

    /** The successor in bucket order. */
    method GetNext(node: HashNode<K, V>, ghost p: nat) returns (next: HashNode?<K, V>)
      requires Valid() && Stored(node) && p < |Flat(buckets)| && Flat(buckets)[p] == node
      ensures next == if p + 1 == |Flat(buckets)| then null else Flat(buckets)[p + 1]
      ensures next != null ==> Stored(next)
    {
      hide Sound, Flat, FlatTo;
      var i := node.index;
      ghost var j := PositionOf(node);
      SamePosition(p, |FlatTo(buckets, i)| + j);
      assert Hangs(lists[i], buckets[i]);
      assert node.listNode == lists[i].nodes[j];
      assert j + 1 < |buckets[i]| ==> lists[i].nodes[j].next == lists[i].nodes[j + 1];
      if node.listNode.next != null {
        FlatAt(buckets, i, j + 1);
        assert buckets[i][j + 1].index == i;
        return node.listNode.next.data;
      }
      BucketEnd(i);
      next := FirstFrom(i + 1);
    }

    lemma BucketEnd(i: nat)
      requires i < |buckets|
      ensures |FlatTo(buckets, i + 1)| == |FlatTo(buckets, i)| + |buckets[i]|
    {
    }

    lemma SamePosition(p: nat, q: nat)
      requires Valid() && p < |Flat(buckets)| && q < |Flat(buckets)| && Flat(buckets)[p] == Flat(buckets)[q]
      ensures p == q
    {
      hide Sound, Hashed, Flat;
      HashedIsUnique(hash, cmp, buckets);
    }

    /** Takes a node out of the table and returns its successor in bucket order. */
    method EraseNode(node: HashNode<K, V>, ghost p: nat) returns (next: HashNode?<K, V>)
      requires Valid() && Stored(node) && p < |Flat(buckets)| && Flat(buckets)[p] == node
      modifies repr
      ensures Valid() && repr == old(repr) && cleared == old(cleared)
      ensures Flat(buckets) == old(Flat(buckets))[..p] + old(Flat(buckets))[p + 1..]
      ensures Model() == old(Model()) - {node.key}
      ensures next == if p == |Flat(buckets)| then null else Flat(buckets)[p]
      ensures next != null ==> Stored(next)
      ensures usedCount == if node == old(buckets)[node.index][|old(buckets)[node.index]| - 1]
                           then Down(old(usedCount)) else old(usedCount)
    {
      hide Sound, Hashed, FlatTo, Flat, ToMap, List.Ends, List.Chained, List.Distinct;
      var index := node.index;
      ghost var j := PositionOf(node);
      SamePosition(p, |FlatTo(buckets, index)| + j);
      next := GetNext(node, p);
      EraseKeepsHashed(hash, cmp, buckets, index, j);
      EraseDropsEntry(hash, cmp, buckets, index, j);
      FlatErase(buckets, index, j);
      LastInBucket(index, j);
      ghost var flat := Flat(buckets);
      assert Hangs(lists[index], buckets[index]);
      var last := Unhang(lists[index], node, j);
      CountOut(last);
      if next != null {
        StillStored(p);
      }
    }

    /** One step of a walk over the table: the node goes or stays, the walk moves on. */
    method EraseOrNext(node: HashNode<K, V>, ghost nodes: seq<HashNode<K, V>>, ghost visited: seq<HashNode<K, V>>,
                       drop: HashNode<K, V> -> bool) returns (next: HashNode?<K, V>)
      requires Valid() && Stored(node) && Swept(nodes, drop, visited, Flat(buckets))
      requires |visited| < |nodes| && nodes[|visited|] == node
      modifies repr
      ensures Valid() && repr == old(repr)
      ensures Swept(nodes, drop, visited + [node], Flat(buckets))
      ensures next == if |visited| + 1 == |nodes| then null else nodes[|visited| + 1]
      ensures next != null ==> Stored(next)
    {
      hide Sound, Hashed, Flat, ToMap, Swept;
      ghost var k, flat := |Remaining(visited, drop)|, Flat(buckets);
      SweepStep(nodes, drop, visited, flat);
      if drop(node) {
        next := EraseNode(node, k);
        Behind(flat, Flat(buckets), k);
      } else {
        next := GetNext(node, k);
      }
    }

    method CountOut(last: bool)
      requires Linked() && nodeCount > 0
      modifies this`usedCount, this`nodeCount
      ensures Linked() && nodeCount == old(nodeCount) - 1
      ensures usedCount == if last then Down(old(usedCount)) else old(usedCount)
    {
      hide Sound, Hashed;
      nodeCount := nodeCount - 1;
      if last {
        usedCount := Down(usedCount);
      }
    }

    lemma LastInBucket(i: nat, j: nat)
      requires Linked() && i < size && j < |buckets[i]|
      ensures buckets[i][j] == buckets[i][|buckets[i]| - 1] <==> j == |buckets[i]| - 1
    {
      assert Apart(cmp, buckets[i]);
      assert cmp(buckets[i][j].key, buckets[i][j].key) == 0;
    }

    lemma StillStored(p: nat)
      requires Linked() && p < |Flat(buckets)|
      ensures Stored(Flat(buckets)[p])
    {
      hide Sound, FlatTo;
      var i, j := FlatFrom(buckets, |buckets|, p);
      assert buckets[i][j].index == i;
    }

    method Unhang(list: List<HashNode<K, V>>, node: HashNode<K, V>, ghost j: nat) returns (last: bool)
      requires Linked() && node.index < size && lists[node.index] == list
      requires j < |buckets[node.index]| && buckets[node.index][j] == node
      requires Hashed(hash, cmp, buckets[node.index := buckets[node.index][..j] + buckets[node.index][j + 1..]])
      modifies this`buckets, list.repr
      ensures Linked()
      ensures buckets == old(buckets)[node.index := old(buckets)[node.index][..j] + old(buckets)[node.index][j + 1..]]
      ensures last <==> j == |old(buckets)[node.index]| - 1
    {
      hide Sound, Hashed;
      ghost var i, b := node.index, buckets[node.index];
      assert Hangs(list, b) && list.nodes[j] == node.listNode;
      assert j + 1 < |b| ==> list.nodes[j].next == list.nodes[j + 1];
      var next, k := list.Erase(node.listNode);
      assert k == j;
      assert Hangs(list, b[..j] + b[j + 1..]);
      buckets := buckets[i := b[..j] + b[j + 1..]];
      last := next == null;
    }

    /** Frees all nodes and leaves the bucket lists empty; the counters stay as they were. */
    method Clear()
      requires Valid()
      modifies repr
      ensures Valid() && repr == old(repr) && Flat(buckets) == [] && Model() == map[]
      ensures nodeCount == old(nodeCount) && usedCount == old(usedCount)
      ensures cleared == old(cleared) + |old(Flat(buckets))|
    {
      hide Sound, Hashed, Flat, FlatTo;
      var i := 0;
      while i < size
        invariant i <= size && Linked() && repr == old(repr)
        invariant forall m :: 0 <= m < i ==> buckets[m] == []
        invariant nodeCount == old(nodeCount) && usedCount == old(usedCount) && cleared == old(cleared)
      {
        assert Hangs(lists[i], buckets[i]);
        if lists[i] != null {
          ClearList(lists[i], i);
        }
        i := i + 1;
      }
      EmptyStretch(buckets, 0, size);
      NoNodes();
      cleared := nodeCount;
    }

    lemma NoNodes()
      requires |buckets| == size && FlatTo(buckets, size) == FlatTo(buckets, 0)
      ensures Flat(buckets) == [] && Model() == map[]
    {
    }

    method ClearList(list: List<HashNode<K, V>>, ghost i: nat)
      requires Linked() && i < size && lists[i] == list
      modifies this`buckets, list.repr
      ensures Linked() && buckets == old(buckets)[i := []]
    {
      hide Sound;
      assert Hangs(list, buckets[i]);
      var freed := list.Clear();
      buckets := buckets[i := []];
    }
  }

  /** The handle that clients hold: it goes on to a larger table when this one fills up. */
  class Hashtable<K(!new), V> {
    var table: Table<K, V>

    ghost predicate Valid()
      reads this, table, table.repr
    {
      table.Valid() && this !in table.repr
    }

    ghost function Model(): map<K, V>
      reads this, table
    {
      table.Model()
    }

    /** `InitHashtable`: at least the minimum number of buckets; too many are refused by the
        caller's NULL check, which is the precondition here. */
    constructor (size: nat, hash: K -> Word, cmp: (K, K) -> int)
      requires Sound(hash, cmp) && size <= MAX_HASH_SIZE
      ensures Valid() && fresh(table) && fresh(table.repr) && Model() == map[]
      ensures table.hash == hash && table.cmp == cmp && table.size >= MIN_HASH_SIZE
    {
      table := new Table(if size < MIN_HASH_SIZE then MIN_HASH_SIZE else size, hash, cmp);
    }

    /** Moves every node, in bucket order, to a table of twice the size. The new table counts
        its used buckets exactly; if it has doubled they are at most twice as many. */
    method Rehash()
      requires Valid() && table.size < MAX_HASH_SIZE
      modifies this
      ensures Valid() && fresh(table) && fresh(table.repr)
      ensures table.hash == old(table.hash) && table.cmp == old(table.cmp)
      ensures table.size == if 2 * old(table.size) > MAX_HASH_SIZE then MAX_HASH_SIZE else 2 * old(table.size)
      ensures Model() == old(Model()) && table.cleared == 0
      ensures table.usedCount == Occupied(table.buckets)
      ensures table.size == 2 * old(table.size) ==> table.usedCount <= 2 * Occupied(old(table.buckets))
    {
      hide Sound, Hashed, Flat, ToMap, Contains, Apart, Occupied;
      var was := table;
      var size := if 2 * was.size > MAX_HASH_SIZE then MAX_HASH_SIZE else 2 * was.size;
      var made := new Table(size, was.hash, was.cmp);
      NothingMoved(made.buckets, Flat(was.buckets), was.buckets);
      MoveAll(was, made);
      if size == 2 * was.size {
        DoublingOccupies(was.hash, was.cmp, was.buckets, made.buckets);
      }
      table := made;
    }

    static method MoveAll(was: Table<K, V>, made: Table<K, V>)
      requires was.Valid() && made.Valid() && was.repr !! made.repr
      requires made.hash == was.hash && made.cmp == was.cmp
      requires Moved(was, made, Flat(was.buckets)[..0])
      modifies made.repr
      ensures made.Valid() && fresh(made.repr - old(made.repr)) && made.cleared == old(made.cleared)
      ensures was.Valid() && was.buckets == old(was.buckets)
      ensures Moved(was, made, Flat(was.buckets))
    {
      hide Sound, Hashed, Flat, Apart, Moved;
      ghost var nodes, p := Flat(was.buckets), 0;
      HashedIsApart(was.hash, was.cmp, was.buckets);
      var node := was.GetFirst();
      while node != null
        invariant p <= |nodes| && node == if p == |nodes| then null else nodes[p]
        invariant node != null ==> was.Stored(node)
        invariant was.Valid() && was.buckets == old(was.buckets) && nodes == Flat(was.buckets)
        invariant made.Valid() && was.repr !! made.repr && fresh(made.repr - old(made.repr))
        invariant made.cleared == old(made.cleared)
        invariant Moved(was, made, nodes[..p])
        decreases |nodes| - p
      {
        MoveNode(was, made, node, p);
        node := was.GetNext(node, p);
        p := p + 1;
      }
      assert nodes[..p] == nodes;
    }

    static ghost predicate Moved(was: Table<K, V>, made: Table<K, V>, moved: seq<HashNode<K, V>>)
      requires |was.buckets| > 0
      reads was, made
    {
      && made.Model() == ToMap(moved) && made.usedCount == Occupied(made.buckets)
      && FromOld(was.buckets, made.buckets)
    }

    /** Every node of the new table has its hash from a used bucket of the old one. */
    static ghost predicate FromOld(was: Buckets<K, V>, made: Buckets<K, V>)
      requires |was| > 0
    {
      forall i, j :: 0 <= i < |made| && 0 <= j < |made[i]| ==> was[made[i][j].hash % |was|] != []
    }

    static method MoveNode(was: Table<K, V>, made: Table<K, V>, node: HashNode<K, V>, ghost p: nat)
      requires was.Valid() && made.Valid() && was.repr !! made.repr
      requires made.hash == was.hash && made.cmp == was.cmp
      requires p < |Flat(was.buckets)| && Flat(was.buckets)[p] == node && was.Stored(node)
      requires Apart(was.cmp, Flat(was.buckets)) && Moved(was, made, Flat(was.buckets)[..p])
      modifies made.repr
      ensures made.Valid() && fresh(made.repr - old(made.repr)) && made.cleared == old(made.cleared)
      ensures was.Valid() && was.buckets == old(was.buckets) && was.Stored(node)
      ensures Moved(was, made, Flat(was.buckets)[..p + 1])
    {
      hide Sound, Hashed, Flat, ToMap, Contains, Apart, OccupiedIn;
      NextIsNew(was.hash, was.cmp, Flat(was.buckets), p);
      StoredHash(was, node);
      ghost var before := made.buckets;
      var moved := made.AddNode(node.key, node.data, node.hash);
      OneMore(was.buckets, before, moved);
    }

    static lemma OneMore(was: Buckets<K, V>, made: Buckets<K, V>, node: HashNode<K, V>)
      requires |was| > 0 && FromOld(was, made) && node.index < |made| && was[node.hash % |was|] != []
      ensures var made' := made[node.index := made[node.index] + [node]];
        && FromOld(was, made')
        && Occupied(made') == Occupied(made) + (if made[node.index] == [] then 1 else 0)
        && Occupied(made') <= |made|
    {
      OccupiedUpdate(made, node.index, made[node.index] + [node], |made|);
      OccupiedBounded(made[node.index := made[node.index] + [node]], 0, |made|);
    }

    static lemma NothingMoved(bs: Buckets<K, V>, nodes: seq<HashNode<K, V>>, was: Buckets<K, V>)
      requires Flat(bs) == [] && |was| > 0
      ensures ToMap(Flat(bs)) == ToMap(nodes[..0]) && Occupied(bs) == 0 && FromOld(was, bs)
    {
      NothingOccupied(bs, |bs|);
      forall i | 0 <= i < |bs| ensures bs[i] == [] {
        if bs[i] != [] {
          FlatAt(bs, i, 0);
        }
      }
    }

    static lemma StoredHash(t: Table<K, V>, node: HashNode<K, V>)
      requires t.Valid() && t.Stored(node)
      ensures node.hash == t.hash(node.key) && node.hash % |t.buckets| == node.index
      ensures t.buckets[node.hash % |t.buckets|] != []
    {
    }

    /** Fails on a key that is there already, and otherwise adds the entry, moving to a
        larger table first if the limit of used buckets is met and one more is needed. */
    method Add(key: K, data: V) returns (node: HashNode?<K, V>)
      requires Valid()
      modifies this, table.repr
      ensures Valid() && fresh(table.repr - old(table.repr)) && (table == old(table) || fresh(table))
      ensures table.hash == old(table.hash) && table.cmp == old(table.cmp)
      ensures node == null <==> old(Contains(table.cmp, Model(), key))
      ensures node == null ==> Model() == old(Model()) && table == old(table)
      ensures node != null ==> Model() == old(Model())[key := data] && node.key == key && node.data == data
      ensures var index := old(table.hash(key) % table.size);
        old(index < |table.buckets|)
        && (table != old(table) <==>
              node != null && old(table.usedCount == table.limit && table.size < MAX_HASH_SIZE && table.buckets[index] == []))
        && (table != old(table) ==> table.size == if 2 * old(table.size) > MAX_HASH_SIZE then MAX_HASH_SIZE else 2 * old(table.size))
    {
      hide Sound, Hashed, ToMap, Contains;
      var h := table.hash(key);
      var index := h % table.size;
      BucketDecides(table.hash, table.cmp, table.buckets, key);
      var found := table.Search(key, index);
      if found != null {
        return null;
      }
      if table.usedCount == table.limit && table.size < MAX_HASH_SIZE {
        var empty := table.IsEmptyList(index);
        if empty {
          Rehash();
        }
      }
      node := table.AddNode(key, data, h);
    }

    /** The data stored under an equal key. */
    method GetValue(key: K) returns (r: Option<V>)
      requires Valid()
      ensures r.None? <==> !Contains(table.cmp, Model(), key)
      ensures forall stored :: Matches(table.cmp, Model(), key, stored) ==> r == Some(Model()[stored])
    {
      hide Sound, Hashed, ToMap, Flat;
      var h := table.hash(key);
      BucketDecides(table.hash, table.cmp, table.buckets, key);
      var found := table.Search(key, h % table.size);
      if found == null {
        return None;
      }
      forall stored | Matches(table.cmp, Model(), key, stored) ensures stored == found.key {
        MatchIsUnique(table.hash, table.cmp, table.buckets, key, stored, found.key);
      }
      return Some(found.data);
    }

    /** Erases the entry under an equal key, if there is one; the code says which. */
    method EraseByKey(key: K) returns (code: int)
      requires Valid()
      modifies table.repr
      ensures Valid() && table.repr == old(table.repr) && code in {0, 3, -1}
      ensures code == 0 <==> old(Contains(table.cmp, Model(), key))
      ensures Model() == Without(table.cmp, old(Model()), key)
    {
      hide Sound, Hashed, ToMap, Flat, FlatTo;
      var h := table.hash(key);
      var index := h % table.size;
      BucketDecides(table.hash, table.cmp, table.buckets, key);
      if table.lists[index] == null {
        assert table.Hangs(table.lists[index], table.buckets[index]);
        NoMatch(table.cmp, Model(), key);
        return 3;
      }
      var found := table.Search(key, index);
      if found == null {
        NoMatch(table.cmp, Model(), key);
        return -1;
      }
      InBucket(table, found, index);
      ghost var j := table.PositionOf(found);
      OnlyMatchGoes(table.hash, table.cmp, table.buckets, key, found.key);
      var next := table.EraseNode(found, |FlatTo(table.buckets, index)| + j);
      return 0;
    }

    static lemma NoMatch(cmp: (K, K) -> int, m: map<K, V>, key: K)
      requires !Contains(cmp, m, key)
      ensures Without(cmp, m, key) == m
    {
      assert forall x :: x in m ==> !Matches(cmp, m, key, x);
    }

    static lemma InBucket(t: Table<K, V>, node: HashNode<K, V>, index: nat)
      requires t.Valid() && index < t.size && node in t.buckets[index]
      ensures node.index == index && t.Stored(node)
    {
    }

    /** Erases everything; what the counters still say afterwards only shifts the next rehash. */
    method Clear()
      requires Valid()
      modifies table.repr
      ensures Valid() && table.repr == old(table.repr) && Model() == map[]
      ensures table.usedCount == old(table.usedCount) && table.nodeCount == old(table.nodeCount)
    {
      hide Flat;
      table.Clear();
    }

    /** Walks the table, erasing as it goes: every node is visited exactly once, in bucket
        order, and those that are to be dropped are the ones that go. */
    method EraseWhere(drop: HashNode<K, V> -> bool) returns (visited: seq<HashNode<K, V>>)
      requires Valid()
      modifies table.repr
      ensures Valid() && visited == old(Flat(table.buckets))
      ensures Flat(table.buckets) == Remaining(old(Flat(table.buckets)), drop)
    {
      hide Sound, Hashed, Flat, ToMap, Contains, Remaining, Swept;
      ghost var nodes := Flat(table.buckets);
      ghost var t, r := table, table.repr;
      visited := [];
      NothingSwept(nodes, drop);
      var node := table.GetFirst();
      while node != null
        invariant Valid() && table == t && table.repr == r
        invariant |visited| <= |nodes| && Swept(nodes, drop, visited, Flat(table.buckets))
        invariant node == if |visited| == |nodes| then null else nodes[|visited|]
        invariant node != null ==> table.Stored(node)
        decreases |nodes| - |visited|
      {
        ghost var before := visited;
        visited := visited + [node];
        node := table.EraseOrNext(node, nodes, before, drop);
      }
      EverythingSwept(nodes, drop, visited, Flat(table.buckets));
    }
  }

  ghost function Remaining<K, V>(nodes: seq<HashNode<K, V>>, drop: HashNode<K, V> -> bool): seq<HashNode<K, V>> {
    if nodes == [] then []
    else Remaining(nodes[..|nodes| - 1], drop) + (if drop(nodes[|nodes| - 1]) then [] else [nodes[|nodes| - 1]])
  }

  /** A walk over `nodes` has come past `visited` and has left `flat` in the table. */
  ghost predicate Swept<K, V>(nodes: seq<HashNode<K, V>>, drop: HashNode<K, V> -> bool,
                              visited: seq<HashNode<K, V>>, flat: seq<HashNode<K, V>>)
  {
    visited <= nodes && flat == Remaining(visited, drop) + nodes[|visited|..]
  }

  lemma NothingSwept<K, V>(nodes: seq<HashNode<K, V>>, drop: HashNode<K, V> -> bool)
    ensures Swept(nodes, drop, [], nodes)
  {
    assert [] + nodes[0..] == nodes;
  }

  lemma EverythingSwept<K, V>(nodes: seq<HashNode<K, V>>, drop: HashNode<K, V> -> bool,
                              visited: seq<HashNode<K, V>>, flat: seq<HashNode<K, V>>)
    requires Swept(nodes, drop, visited, flat) && |visited| == |nodes|
    ensures visited == nodes && flat == Remaining(nodes, drop)
  {
    assert nodes[|visited|..] == [];
  }

  /** Where the node behind the k-th one is when that one is gone. */
  lemma Behind<K, V>(flat: seq<HashNode<K, V>>, rest: seq<HashNode<K, V>>, k: nat)
    requires k < |flat| && rest == flat[..k] + flat[k + 1..]
    ensures |rest| == |flat| - 1 && (k + 1 < |flat| ==> rest[k] == flat[k + 1])
  {
  }

  lemma SweepStep<K, V>(nodes: seq<HashNode<K, V>>, drop: HashNode<K, V> -> bool,
                        visited: seq<HashNode<K, V>>, flat: seq<HashNode<K, V>>)
    requires Swept(nodes, drop, visited, flat) && |visited| < |nodes|
    ensures var k, node := |Remaining(visited, drop)|, nodes[|visited|];
      && k < |flat| && flat[k] == node
      && Swept(nodes, drop, visited + [node], if drop(node) then flat[..k] + flat[k + 1..] else flat)
      && |flat| - k == |nodes| - |visited|
      && (k + 1 < |flat| ==> flat[k + 1] == nodes[|visited| + 1])
  {
    var node, rest := nodes[|visited|], nodes[|visited| + 1..];
    assert (visited + [node])[..|visited|] == visited;
    assert nodes[|visited|..] == [node] + rest;
    hide Remaining;
    Middle(Remaining(visited, drop), node, rest);
  }

  lemma Middle<K, V>(front: seq<HashNode<K, V>>, node: HashNode<K, V>, rest: seq<HashNode<K, V>>)
    ensures var flat, k := front + ([node] + rest), |front|;
      && |flat| == k + 1 + |rest| && flat[k] == node && (rest != [] ==> flat[k + 1] == rest[0])
      && flat[..k] + flat[k + 1..] == front + rest && flat == front + [node] + rest
  {
    var flat := front + ([node] + rest);
    assert flat[|front| + 1..] == rest;
  }

  // -------------------------------------------------------------- histories

  datatype Op<K, V> = AddOp(key: K, data: V) | EraseOp(key: K) | FindOp(key: K) | ClearOp
  datatype Answer<V> = Added(ok: bool) | Erased(ok: bool) | Found(value: Option<V>) | Cleared

  /** What a finite map with keys up to `cmp` does. */
  ghost function Applied<K(!new), V>(cmp: (K, K) -> int, m: map<K, V>, op: Op<K, V>): map<K, V> {
    match op
    case AddOp(k, d) => if Contains(cmp, m, k) then m else m[k := d]
    case EraseOp(k) => Without(cmp, m, k)
    case FindOp(_) => m
    case ClearOp => map[]
  }

  ghost predicate Answers<K(!new), V>(cmp: (K, K) -> int, m: map<K, V>, op: Op<K, V>, a: Answer<V>) {
    match op
    case AddOp(k, _) => a == Added(!Contains(cmp, m, k))
    case EraseOp(k) => a == Erased(Contains(cmp, m, k))
    case FindOp(k) =>
      && a.Found? && (a.value.None? <==> !Contains(cmp, m, k))
      && (forall stored :: Matches(cmp, m, k, stored) ==> a.value == Some(m[stored]))
    case ClearOp => a == Cleared
  }

  /** The map after the first `n` operations of a history. */
  ghost function AfterOps<K(!new), V>(cmp: (K, K) -> int, m: map<K, V>, ops: seq<Op<K, V>>, n: nat): map<K, V>
    requires n <= |ops|
  {
    if n == 0 then m else Applied(cmp, AfterOps(cmp, m, ops, n - 1), ops[n - 1])
  }

  /** Over every history the table answers as a finite map does, across all its rehashes and
      with counters that clearing leaves as they were. */
  method Replay<K(!new), V>(size: nat, hash: K -> Word, cmp: (K, K) -> int, ops: seq<Op<K, V>>) returns (answers: seq<Answer<V>>)
    requires Sound(hash, cmp) && size <= MAX_HASH_SIZE
    ensures |answers| == |ops|
    ensures forall i :: 0 <= i < |ops| ==> Answers(cmp, AfterOps(cmp, map[], ops, i), ops[i], answers[i])
  {
    hide Sound, Hashed, ToMap, Flat, Answers, Applied;
    var h := new Hashtable<K, V>(size, hash, cmp);
    answers := [];
    while |answers| < |ops|
      invariant |answers| <= |ops| && h.Valid() && fresh(h) && fresh(h.table) && fresh(h.table.repr)
      invariant h.table.hash == hash && h.table.cmp == cmp
      invariant h.Model() == AfterOps(cmp, map[], ops, |answers|)
      invariant forall i :: 0 <= i < |answers| ==> Answers(cmp, AfterOps(cmp, map[], ops, i), ops[i], answers[i])
    {
      var a := Perform(h, ops[|answers|]);
      answers := answers + [a];
    }
  }

  method Perform<K(!new), V>(h: Hashtable<K, V>, op: Op<K, V>) returns (a: Answer<V>)
    requires h.Valid()
    modifies h, h.table.repr
    ensures h.Valid() && fresh(h.table.repr - old(h.table.repr)) && (h.table == old(h.table) || fresh(h.table))
    ensures h.table.hash == old(h.table.hash) && h.table.cmp == old(h.table.cmp)
    ensures h.Model() == Applied(h.table.cmp, old(h.Model()), op)
    ensures Answers(h.table.cmp, old(h.Model()), op, a)
  {
    hide Sound, Hashed, ToMap, Flat, Contains;
    match op {
      case AddOp(key, data) =>
        var node := h.Add(key, data);
        a := Added(node != null);
      case EraseOp(key) =>
        var code := h.EraseByKey(key);
        a := Erased(code == 0);
      case FindOp(key) =>
        var r := h.GetValue(key);
        a := Found(r);
      case ClearOp =>
        h.Clear();
        a := Cleared;
    }
  }
}
