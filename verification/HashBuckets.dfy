/** The contents of the chained hash table, without the pointers: bucket lists, their
    enumeration in bucket order, and the finite map that they stand for. */
module HashBuckets {
  import opened Bytes
  import opened LinkedList

  class HashNode<K, V> {
    const key: K
    const data: V
    const hash: Word
    const index: nat
    var listNode: ListNode?<HashNode<K, V>>

    constructor (key: K, data: V, hash: Word, index: nat)
      ensures this.key == key && this.data == data && this.hash == hash && this.index == index && listNode == null
    {
      this.key, this.data, this.hash, this.index := key, data, hash, index;
      listNode := null;
    }
  }

  type Buckets<K, V> = seq<seq<HashNode<K, V>>>

  // ---------------------------------------------------------------- keys

  /** What the table asks of its client: comparing equal is an equivalence, and equal keys
      have equal hashes. */
  ghost predicate Sound<K(!new)>(hash: K -> Word, cmp: (K, K) -> int) {
    && (forall a :: cmp(a, a) == 0)
    && (forall a, b :: cmp(a, b) == 0 ==> cmp(b, a) == 0)
    && (forall a, b, c :: cmp(a, b) == 0 && cmp(b, c) == 0 ==> cmp(a, c) == 0)
    && (forall a, b :: cmp(a, b) == 0 ==> hash(a) == hash(b))
  }

  /** No two nodes of a list have equal keys. */
  ghost predicate Apart<K, V>(cmp: (K, K) -> int, nodes: seq<HashNode<K, V>>) {
    forall i, j :: 0 <= i < j < |nodes| ==> cmp(nodes[i].key, nodes[j].key) != 0
  }

  /** Every node hangs in the bucket of its hash, and no two keys are equal. */
  ghost predicate Hashed<K, V>(hash: K -> Word, cmp: (K, K) -> int, bs: Buckets<K, V>) {
    && 0 < |bs|
    && (forall i, j :: 0 <= i < |bs| && 0 <= j < |bs[i]| ==>
          var n := bs[i][j];
          n.hash == hash(n.key) && n.index == i && n.hash % |bs| == i)
    && (forall i :: 0 <= i < |bs| ==> Apart(cmp, bs[i]))
  }

  // ---------------------------------------------------------- enumeration

  /** The nodes of the first `i` buckets, in bucket order. */
  ghost function FlatTo<K, V>(bs: Buckets<K, V>, i: nat): seq<HashNode<K, V>>
    requires i <= |bs|
  {
    if i == 0 then [] else FlatTo(bs, i - 1) + bs[i - 1]
  }

  ghost function Flat<K, V>(bs: Buckets<K, V>): seq<HashNode<K, V>> {
    FlatTo(bs, |bs|)
  }

  lemma {:induction false} FlatGrows<K, V>(bs: Buckets<K, V>, i: nat, k: nat)
    requires i <= k <= |bs|
    ensures FlatTo(bs, i) <= FlatTo(bs, k)
    decreases k
  {
    if i < k {
      FlatGrows(bs, i, k - 1);
    }
  }

  /** The position of a node in the enumeration. */
  lemma FlatAt<K, V>(bs: Buckets<K, V>, i: nat, j: nat)
    requires i < |bs| && j < |bs[i]|
    ensures |FlatTo(bs, i)| + j < |Flat(bs)| && Flat(bs)[|FlatTo(bs, i)| + j] == bs[i][j]
  {
    FlatGrows(bs, i + 1, |bs|);
    assert FlatTo(bs, i + 1)[|FlatTo(bs, i)| + j] == bs[i][j];
  }

  lemma {:induction false} EmptyStretch<K, V>(bs: Buckets<K, V>, i: nat, k: nat)
    requires i <= k <= |bs| && forall m :: i <= m < k ==> bs[m] == []
    ensures FlatTo(bs, k) == FlatTo(bs, i)
    decreases k
  {
    if i < k {
      EmptyStretch(bs, i, k - 1);
    }
  }

  lemma {:induction false} FlatFrom<K, V>(bs: Buckets<K, V>, k: nat, p: nat) returns (i: nat, j: nat)
    requires k <= |bs| && p < |FlatTo(bs, k)|
    ensures i < k && j < |bs[i]| && p == |FlatTo(bs, i)| + j && FlatTo(bs, k)[p] == bs[i][j]
    decreases k
  {
    if p < |FlatTo(bs, k - 1)| {
      i, j := FlatFrom(bs, k - 1, p);
    } else {
      i, j := k - 1, p - |FlatTo(bs, k - 1)|;
    }
  }

  lemma {:induction false} SamePrefix<K, V>(bs: Buckets<K, V>, bs': Buckets<K, V>, i: nat)
    requires i <= |bs| == |bs'| && bs[..i] == bs'[..i]
    ensures FlatTo(bs, i) == FlatTo(bs', i)
  {
    if i > 0 {
      assert bs[..i - 1] == bs[..i][..i - 1] && bs'[..i - 1] == bs'[..i][..i - 1];
      assert bs[i - 1] == bs[..i][i - 1] && bs'[i - 1] == bs'[..i][i - 1];
      SamePrefix(bs, bs', i - 1);
    }
  }

  /** Replacing one bucket replaces its stretch of the enumeration. */
  lemma {:induction false} FlatUpdate<K, V>(bs: Buckets<K, V>, i: nat, b: seq<HashNode<K, V>>, k: nat)
    requires i < k <= |bs|
    ensures |FlatTo(bs, i)| + |bs[i]| <= |FlatTo(bs, k)|
    ensures FlatTo(bs[i := b], k)
      == FlatTo(bs, k)[..|FlatTo(bs, i)|] + b + FlatTo(bs, k)[|FlatTo(bs, i)| + |bs[i]|..]
    decreases k
  {
    if k == i + 1 {
      SamePrefix(bs, bs[i := b], i);
    } else {
      FlatUpdate(bs, i, b, k - 1);
    }
  }

  /** Taking the `j`-th node out of bucket `i` takes its position out of the enumeration. */
  lemma FlatErase<K, V>(bs: Buckets<K, V>, i: nat, j: nat)
    requires i < |bs| && j < |bs[i]|
    ensures var p := |FlatTo(bs, i)| + j;
      && p < |Flat(bs)|
      && Flat(bs[i := bs[i][..j] + bs[i][j + 1..]]) == Flat(bs)[..p] + Flat(bs)[p + 1..]
  {
    var b, at := bs[i][..j] + bs[i][j + 1..], |FlatTo(bs, i)|;
    FlatUpdate(bs, i, b, |bs|);
    FlatAt(bs, i, j);
    forall m | 0 <= m < |bs[i]| ensures at + m < |Flat(bs)| && Flat(bs)[at + m] == bs[i][m] {
      FlatAt(bs, i, m);
    }
    hide FlatTo;
    WithoutOne(Flat(bs), at, bs[i], j);
  }

  lemma WithoutOne<T>(flat: seq<T>, at: nat, b: seq<T>, j: nat)
    requires j < |b| && at + |b| <= |flat| && forall m :: 0 <= m < |b| ==> flat[at + m] == b[m]
    ensures flat[..at] + (b[..j] + b[j + 1..]) + flat[at + |b|..] == flat[..at + j] + flat[at + j + 1..]
  {
    assert b == flat[at..at + |b|];
  }

  // ------------------------------------------------------------------ map

  ghost function ToMap<K, V>(nodes: seq<HashNode<K, V>>): map<K, V> {
    if nodes == [] then map[]
    else ToMap(nodes[..|nodes| - 1])[nodes[|nodes| - 1].key := nodes[|nodes| - 1].data]
  }

  ghost predicate Has<K, V>(nodes: seq<HashNode<K, V>>, k: K) {
    exists i :: 0 <= i < |nodes| && nodes[i].key == k
  }

  lemma {:induction false} ToMapHolds<K, V>(nodes: seq<HashNode<K, V>>, k: K)
    ensures k in ToMap(nodes) <==> Has(nodes, k)
  {
    if nodes != [] {
      var n := |nodes| - 1;
      ToMapHolds(nodes[..n], k);
      if Has(nodes[..n], k) {
        var i :| 0 <= i < n && nodes[..n][i].key == k;
        assert nodes[i].key == k;
      }
      if Has(nodes, k) {
        var i :| 0 <= i < |nodes| && nodes[i].key == k;
        assert i < n ==> nodes[..n][i].key == k;
      }
    }
  }

  /** Distinct keys: no entry of the map hides another. */
  ghost predicate Unique<K, V>(nodes: seq<HashNode<K, V>>) {
    forall i, j :: 0 <= i < j < |nodes| ==> nodes[i].key != nodes[j].key
  }

  lemma {:induction false} ToMapAt<K, V>(nodes: seq<HashNode<K, V>>, i: nat)
    requires Unique(nodes) && i < |nodes|
    ensures nodes[i].key in ToMap(nodes) && ToMap(nodes)[nodes[i].key] == nodes[i].data
    decreases |nodes|
  {
    var n := |nodes| - 1;
    if i < n {
      ToMapAt(nodes[..n], i);
      assert nodes[..n][i] == nodes[i];
    }
  }

  /** Wherever a node with a new key is put into the list, the map gains its entry. */
  lemma {:induction false} ToMapInsert<K, V>(nodes: seq<HashNode<K, V>>, p: nat, n: HashNode<K, V>)
    requires p <= |nodes| && forall i :: 0 <= i < |nodes| ==> nodes[i].key != n.key
    ensures ToMap(nodes[..p] + [n] + nodes[p..]) == ToMap(nodes)[n.key := n.data]
    ensures n.key !in ToMap(nodes)
    decreases |nodes|
  {
    var more := nodes[..p] + [n] + nodes[p..];
    if nodes == [] {
      assert more == [n] && more[..0] == [];
    } else {
      var init, last := nodes[..|nodes| - 1], nodes[|nodes| - 1];
      if p < |nodes| {
        assert more[..|more| - 1] == init[..p] + [n] + init[p..] && more[|more| - 1] == last;
        ToMapInsert(init, p, n);
      } else {
        assert more[..|more| - 1] == nodes && more[|more| - 1] == n;
        ToMapInsert(init, |init|, n);
      }
    }
  }

  /** Taking a node out of the list takes exactly its entry out of the map. */
  lemma ToMapErase<K, V>(nodes: seq<HashNode<K, V>>, p: nat)
    requires p < |nodes| && Unique(nodes)
    ensures ToMap(nodes[..p] + nodes[p + 1..]) == ToMap(nodes) - {nodes[p].key}
  {
    hide ToMap;
    var less, n := nodes[..p] + nodes[p + 1..], nodes[p];
    assert less[..p] + [n] + less[p..] == nodes;
    forall i | 0 <= i < |less| ensures less[i].key != n.key {
      assert less[i] == nodes[if i < p then i else i + 1];
    }
    ToMapInsert(less, p, n);
    assert ToMap(less)[n.key := n.data] - {n.key} == ToMap(less);
  }

  /** No two nodes of the whole table have equal keys. */
  lemma HashedIsApart<K(!new), V>(hash: K -> Word, cmp: (K, K) -> int, bs: Buckets<K, V>)
    requires Sound(hash, cmp) && Hashed(hash, cmp, bs)
    ensures Apart(cmp, Flat(bs))
  {
    var nodes := Flat(bs);
    forall p, q | 0 <= p < q < |nodes| ensures cmp(nodes[p].key, nodes[q].key) != 0 {
      var i, j := FlatFrom(bs, |bs|, p);
      var i', j' := FlatFrom(bs, |bs|, q);
      assert bs[i][j].hash % |bs| == i && bs[i'][j'].hash % |bs| == i';
      if i < i' {
        FlatGrows(bs, i + 1, i');
      } else if i' < i {
        FlatGrows(bs, i' + 1, i);
      }
      assert i == i' ==> j < j' && cmp(bs[i][j].key, bs[i][j'].key) != 0;
    }
  }

  lemma HashedIsUnique<K(!new), V>(hash: K -> Word, cmp: (K, K) -> int, bs: Buckets<K, V>)
    requires Sound(hash, cmp) && Hashed(hash, cmp, bs)
    ensures Unique(Flat(bs))
  {
    HashedIsApart(hash, cmp, bs);
    var nodes := Flat(bs);
    forall p, q | 0 <= p < q < |nodes| ensures nodes[p].key != nodes[q].key {
      assert cmp(nodes[p].key, nodes[q].key) != 0;
    }
  }

  // --------------------------------------------------------------- lookup

  /** The stored key that compares equal to `k`, if there is one. */
  ghost predicate Matches<K, V>(cmp: (K, K) -> int, m: map<K, V>, k: K, stored: K) {
    stored in m && cmp(k, stored) == 0
  }

  ghost predicate Contains<K(!new), V>(cmp: (K, K) -> int, m: map<K, V>, k: K) {
    exists stored :: Matches(cmp, m, k, stored)
  }

  lemma StoredIsFound<K(!new), V>(hash: K -> Word, cmp: (K, K) -> int, bs: Buckets<K, V>, i: nat, j: nat)
    requires Sound(hash, cmp) && Hashed(hash, cmp, bs) && i < |bs| && j < |bs[i]|
    ensures bs[i][j].key in ToMap(Flat(bs)) && ToMap(Flat(bs))[bs[i][j].key] == bs[i][j].data
  {
    hide ToMap, FlatTo;
    HashedIsUnique(hash, cmp, bs);
    FlatAt(bs, i, j);
    ToMapAt(Flat(bs), |FlatTo(bs, i)| + j);
  }

  lemma MatchIsInBucket<K(!new), V>(hash: K -> Word, cmp: (K, K) -> int, bs: Buckets<K, V>, k: K, stored: K) returns (j: nat)
    requires Sound(hash, cmp) && Hashed(hash, cmp, bs)
    requires Matches(cmp, ToMap(Flat(bs)), k, stored)
    ensures j < |bs[hash(k) % |bs|]| && bs[hash(k) % |bs|][j].key == stored
  {
    hide ToMap, FlatTo;
    ToMapHolds(Flat(bs), stored);
    var p :| 0 <= p < |Flat(bs)| && Flat(bs)[p].key == stored;
    var i;
    i, j := FlatFrom(bs, |bs|, p);
    assert bs[i][j].hash == hash(stored) == hash(k);
  }

  /** Searching the bucket of the key's hash is searching the whole map. */
  lemma BucketDecides<K(!new), V>(hash: K -> Word, cmp: (K, K) -> int, bs: Buckets<K, V>, k: K)
    requires Sound(hash, cmp) && Hashed(hash, cmp, bs)
    ensures var b := bs[hash(k) % |bs|];
      Contains(cmp, ToMap(Flat(bs)), k) <==> exists j :: 0 <= j < |b| && cmp(k, b[j].key) == 0
    ensures var b := bs[hash(k) % |bs|];
      forall j :: 0 <= j < |b| && cmp(k, b[j].key) == 0 ==>
        Matches(cmp, ToMap(Flat(bs)), k, b[j].key) && ToMap(Flat(bs))[b[j].key] == b[j].data
  {
    hide ToMap, FlatTo;
    var at := hash(k) % |bs|;
    forall j | 0 <= j < |bs[at]| && cmp(k, bs[at][j].key) == 0
      ensures Matches(cmp, ToMap(Flat(bs)), k, bs[at][j].key) && ToMap(Flat(bs))[bs[at][j].key] == bs[at][j].data
    {
      StoredIsFound(hash, cmp, bs, at, j);
    }
    if stored :| Matches(cmp, ToMap(Flat(bs)), k, stored) {
      var j := MatchIsInBucket(hash, cmp, bs, k, stored);
    }
  }

  /** At most one stored key compares equal. */
  lemma MatchIsUnique<K(!new), V>(hash: K -> Word, cmp: (K, K) -> int, bs: Buckets<K, V>, k: K, a: K, b: K)
    requires Sound(hash, cmp) && Hashed(hash, cmp, bs)
    requires Matches(cmp, ToMap(Flat(bs)), k, a) && Matches(cmp, ToMap(Flat(bs)), k, b)
    ensures a == b
  {
    hide ToMap, Flat;
    var i := MatchIsInBucket(hash, cmp, bs, k, a);
    var j := MatchIsInBucket(hash, cmp, bs, k, b);
    assert cmp(a, k) == 0 && cmp(a, b) == 0 && cmp(b, a) == 0;
    assert Apart(cmp, bs[hash(k) % |bs|]);
    assert i < j ==> cmp(a, b) != 0;
    assert j < i ==> cmp(b, a) != 0;
  }

  /** The map without the entry whose key compares equal to `k`. */
  ghost function Without<K(!new), V>(cmp: (K, K) -> int, m: map<K, V>, k: K): map<K, V> {
    map x | x in m && cmp(k, x) != 0 :: m[x]
  }

  lemma OnlyMatchGoes<K(!new), V>(hash: K -> Word, cmp: (K, K) -> int, bs: Buckets<K, V>, k: K, stored: K)
    requires Sound(hash, cmp) && Hashed(hash, cmp, bs)
    requires Matches(cmp, ToMap(Flat(bs)), k, stored)
    ensures ToMap(Flat(bs)) - {stored} == Without(cmp, ToMap(Flat(bs)), k)
  {
    hide ToMap, Flat, Sound, Hashed;
    forall x | x in ToMap(Flat(bs)) ensures cmp(k, x) == 0 <==> x == stored {
      if cmp(k, x) == 0 {
        MatchIsUnique(hash, cmp, bs, k, x, stored);
      }
    }
  }

  /** A prefix of the enumeration does not hold the key that comes next. */
  lemma NextIsNew<K(!new), V>(hash: K -> Word, cmp: (K, K) -> int, nodes: seq<HashNode<K, V>>, p: nat)
    requires Sound(hash, cmp) && Apart(cmp, nodes) && p < |nodes|
    ensures !Contains(cmp, ToMap(nodes[..p]), nodes[p].key)
    ensures ToMap(nodes[..p + 1]) == ToMap(nodes[..p])[nodes[p].key := nodes[p].data]
  {
    assert nodes[..p + 1][..p] == nodes[..p];
    forall stored | stored in ToMap(nodes[..p]) ensures cmp(nodes[p].key, stored) != 0 {
      ToMapHolds(nodes[..p], stored);
      var m :| 0 <= m < p && nodes[..p][m].key == stored;
      assert cmp(nodes[m].key, nodes[p].key) != 0;
    }
  }

  // ------------------------------------------------------- insert and erase

  lemma InsertKeepsHashed<K(!new), V>(hash: K -> Word, cmp: (K, K) -> int, bs: Buckets<K, V>, n: HashNode<K, V>)
    requires Sound(hash, cmp) && Hashed(hash, cmp, bs)
    requires n.hash == hash(n.key) && n.index == n.hash % |bs|
    requires !Contains(cmp, ToMap(Flat(bs)), n.key)
    ensures Hashed(hash, cmp, bs[n.index := bs[n.index] + [n]])
  {
    hide ToMap, Flat;
    var i := n.index;
    BucketDecides(hash, cmp, bs, n.key);
    forall j | 0 <= j < |bs[i]| ensures cmp(bs[i][j].key, n.key) != 0 {
      var stored, key := bs[i][j].key, n.key;
      assert cmp(stored, key) == 0 ==> cmp(key, stored) == 0;
    }
  }

  lemma InsertAddsEntry<K(!new), V>(hash: K -> Word, cmp: (K, K) -> int, bs: Buckets<K, V>, n: HashNode<K, V>)
    requires Sound(hash, cmp) && Hashed(hash, cmp, bs)
    requires n.index < |bs| && !Contains(cmp, ToMap(Flat(bs)), n.key)
    ensures var bs' := bs[n.index := bs[n.index] + [n]];
      && ToMap(Flat(bs')) == ToMap(Flat(bs))[n.key := n.data]
      && |Flat(bs')| == |Flat(bs)| + 1
  {
    hide ToMap, FlatTo, Hashed;
    var i := n.index;
    var nodes, p := Flat(bs), |FlatTo(bs, i)| + |bs[i]|;
    FlatUpdate(bs, i, bs[i] + [n], |bs|);
    FlatBucket(bs, i);
    assert Flat(bs[i := bs[i] + [n]]) == nodes[..p] + [n] + nodes[p..];
    forall q | 0 <= q < |nodes| ensures nodes[q].key != n.key {
      ToMapHolds(nodes, nodes[q].key);
      assert nodes[q].key == n.key ==> Matches(cmp, ToMap(nodes), n.key, nodes[q].key);
    }
    ToMapInsert(nodes, p, n);
  }

  /** A bucket is a stretch of the enumeration. */
  lemma FlatBucket<K, V>(bs: Buckets<K, V>, i: nat)
    requires i < |bs|
    ensures |FlatTo(bs, i)| + |bs[i]| <= |Flat(bs)|
    ensures Flat(bs)[|FlatTo(bs, i)|..|FlatTo(bs, i)| + |bs[i]|] == bs[i]
  {
    FlatGrows(bs, i + 1, |bs|);
    assert FlatTo(bs, i + 1)[|FlatTo(bs, i)|..] == bs[i];
  }

  lemma EraseKeepsHashed<K(!new), V>(hash: K -> Word, cmp: (K, K) -> int, bs: Buckets<K, V>, i: nat, j: nat)
    requires Sound(hash, cmp) && Hashed(hash, cmp, bs)
    requires i < |bs| && j < |bs[i]|
    ensures Hashed(hash, cmp, bs[i := bs[i][..j] + bs[i][j + 1..]])
  {
    var b := bs[i][..j] + bs[i][j + 1..];
    assert forall m :: 0 <= m < |b| ==> b[m] == bs[i][if m < j then m else m + 1];
  }

  lemma EraseDropsEntry<K(!new), V>(hash: K -> Word, cmp: (K, K) -> int, bs: Buckets<K, V>, i: nat, j: nat)
    requires Sound(hash, cmp) && Hashed(hash, cmp, bs)
    requires i < |bs| && j < |bs[i]|
    ensures var bs' := bs[i := bs[i][..j] + bs[i][j + 1..]];
      && ToMap(Flat(bs')) == ToMap(Flat(bs)) - {bs[i][j].key}
      && |Flat(bs')| == |Flat(bs)| - 1
  {
    hide ToMap, FlatTo;
    HashedIsUnique(hash, cmp, bs);
    FlatErase(bs, i, j);
    FlatAt(bs, i, j);
    ToMapErase(Flat(bs), |FlatTo(bs, i)| + j);
  }

  // -------------------------------------------------------------- doubling

  /** When the number of buckets doubles, a node stays in its bucket or moves up by the old
      number of buckets. */
  lemma DoublingSplitsBucket(h: nat, n: nat, twice: nat)
    requires n > 0 && twice == n + n
    ensures h % twice == h % n || h % twice == h % n + n
  {
    DivMod(h, twice);
    SplitAt(h, n, twice, h / twice, h % twice);
  }

  lemma SplitAt(h: nat, n: nat, twice: nat, q: nat, r: nat)
    requires n > 0 && twice == n + n && r < twice && h == twice * q + r
    ensures r == h % n || r == h % n + n
  {
    TwiceTimes(n, twice, q);
    if r < n {
      ModIs(h, n, 2 * q, r);
    } else {
      ModIs(h, n, 2 * q + 1, r - n);
    }
  }

  lemma DivMod(h: nat, d: nat)
    requires d > 0
    ensures h == d * (h / d) + h % d && h % d < d
  {
  }

  lemma TwiceTimes(n: nat, twice: nat, q: nat)
    requires twice == n + n
    ensures twice * q == n * (2 * q) && n * (2 * q + 1) == n * (2 * q) + n
  {
  }

  lemma {:induction false} Times(n: nat, a: nat, b: nat)
    requires a < b
    ensures n * a + n <= n * b
    decreases b
  {
    assert n * b == n * (b - 1) + n;
    if a < b - 1 {
      Times(n, a, b - 1);
    }
  }

  lemma ModIs(h: nat, n: nat, q: nat, r: nat)
    requires n > 0 && h == n * q + r && r < n
    ensures h % n == r
  {
    DivMod(h, n);
    if h / n < q {
      Times(n, h / n, q);
    } else if q < h / n {
      Times(n, q, h / n);
    }
  }

  /** The number of non-empty buckets among `k` from `from` on. */
  ghost function OccupiedIn<K, V>(bs: Buckets<K, V>, from: nat, k: nat): nat
    requires from + k <= |bs|
  {
    if k == 0 then 0 else OccupiedIn(bs, from, k - 1) + if bs[from + k - 1] == [] then 0 else 1
  }

  ghost function Occupied<K, V>(bs: Buckets<K, V>): nat {
    OccupiedIn(bs, 0, |bs|)
  }

  lemma {:induction false} OccupiedSplits<K, V>(bs: Buckets<K, V>, n: nat, k: nat)
    requires n + k <= |bs|
    ensures OccupiedIn(bs, 0, n + k) == OccupiedIn(bs, 0, n) + OccupiedIn(bs, n, k)
  {
    if k > 0 {
      OccupiedSplits(bs, n, k - 1);
    }
  }

  lemma {:induction false} OccupiedBelow<K, V>(bs: Buckets<K, V>, bs': Buckets<K, V>, from: nat, k: nat)
    requires k <= |bs| && from + k <= |bs'|
    requires forall m :: 0 <= m < k && bs[m] == [] ==> bs'[from + m] == []
    ensures OccupiedIn(bs', from, k) <= OccupiedIn(bs, 0, k)
  {
    if k > 0 {
      OccupiedBelow(bs, bs', from, k - 1);
    }
  }

  /** Doubling the number of buckets at most doubles the number of occupied ones. */
  lemma DoublingOccupies<K(!new), V>(hash: K -> Word, cmp: (K, K) -> int, bs: Buckets<K, V>, bs': Buckets<K, V>)
    requires Hashed(hash, cmp, bs) && Hashed(hash, cmp, bs') && |bs'| == |bs| + |bs|
    requires forall i, j :: 0 <= i < |bs'| && 0 <= j < |bs'[i]| ==> bs[bs'[i][j].hash % |bs|] != []
    ensures Occupied(bs') <= 2 * Occupied(bs)
  {
    var n := |bs|;
    forall m | 0 <= m < n && bs[m] == [] ensures bs'[m] == [] && bs'[n + m] == [] {
      if bs'[m] != [] {
        DoublingSplitsBucket(bs'[m][0].hash, n, |bs'|);
      }
      if bs'[n + m] != [] {
        DoublingSplitsBucket(bs'[n + m][0].hash, n, |bs'|);
      }
    }
    OccupiedSplits(bs', n, n);
    OccupiedBelow(bs, bs', 0, n);
    OccupiedBelow(bs, bs', n, n);
  }

  lemma {:induction false} OccupiedUpdate<K, V>(bs: Buckets<K, V>, i: nat, b: seq<HashNode<K, V>>, k: nat)
    requires i < |bs| && k <= |bs|
    ensures OccupiedIn(bs[i := b], 0, k) == OccupiedIn(bs, 0, k)
      + (if i < k && b != [] then 1 else 0) - (if i < k && bs[i] != [] then 1 else 0)
  {
    if k > 0 {
      OccupiedUpdate(bs, i, b, k - 1);
    }
  }

  /** The table decrements its count of used buckets whenever the last node of a bucket list
      goes. The count stays exact if and only if that node was also the first. */
  lemma UsedCountIsExactIff<K, V>(bs: Buckets<K, V>, i: nat, j: nat)
    requires i < |bs| && j < |bs[i]|
    ensures var bs' := bs[i := bs[i][..j] + bs[i][j + 1..]];
      (if j == |bs[i]| - 1 then Occupied(bs) - 1 else Occupied(bs)) == Occupied(bs')
      <==> !(j == |bs[i]| - 1 && |bs[i]| > 1)
  {
    OccupiedUpdate(bs, i, bs[i][..j] + bs[i][j + 1..], |bs|);
  }

  lemma {:induction false} OccupiedBounded<K, V>(bs: Buckets<K, V>, from: nat, k: nat)
    requires from + k <= |bs|
    ensures OccupiedIn(bs, from, k) <= k
  {
    if k > 0 {
      OccupiedBounded(bs, from, k - 1);
    }
  }

  lemma {:induction false} NothingOccupied<K, V>(bs: Buckets<K, V>, k: nat)
    requires k <= |bs| && FlatTo(bs, k) == []
    ensures OccupiedIn(bs, 0, k) == 0
  {
    if k > 0 {
      NothingOccupied(bs, k - 1);
    }
  }
}
