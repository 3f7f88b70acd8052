/** The hash tables of the iterator debug database: chains of nodes, hashed by address. Both
    grow, look up and remove alike; they insert differently. */
module HashTable {
  import opened PrimeWheel
  import Primality

  datatype Option<T> = None | Some(value: T)

  /** A node with the address it is filed under. */
  datatype Entry<N> = Entry(key: nat, node: N)

  type Chain<N> = seq<Entry<N>>

  /** How an entry ends: memory may run out for the array of buckets, for the node, or for the
      array of a container. */
  datatype Outcome = Done | NoArray | NoNode | NoRoom

  /** Which of these three allocations succeed, if they are made. */
  datatype Memory = Memory(forBuckets: bool, forNode: bool, forRoom: bool)

  /** calloc cannot deliver as many pointers as this: they would fill all addresses. */
  const MAX_BUCKETS: nat := 0x4000_0000

  function Bucket(hash: nat -> nat, key: nat, n: nat): (b: nat)
    requires n > 0
    ensures b < n
  {
    hash(key) % n
  }

  ghost predicate DistinctKeys<N>(chain: Chain<N>) {
    forall i, j | 0 <= i < j < |chain| :: chain[i].key != chain[j].key
  }

  /** Every entry lies in the bucket that its hash selects. */
  ghost predicate Placed<N>(hash: nat -> nat, buckets: seq<Chain<N>>) {
    forall b, k | 0 <= b < |buckets| && 0 <= k < |buckets[b]| :: Bucket(hash, buckets[b][k].key, |buckets|) == b
  }

  /** It is the remainder of the hash by the number of buckets. */
  lemma PlacedByHash<N>(hash: nat -> nat, buckets: seq<Chain<N>>, b: nat, k: nat)
    requires Placed(hash, buckets) && b < |buckets| && k < |buckets[b]|
    ensures hash(buckets[b][k].key) % |buckets| == b
  {
  }

  ghost predicate InTable<N>(hash: nat -> nat, buckets: seq<Chain<N>>, e: Entry<N>) {
    |buckets| > 0 && e in buckets[Bucket(hash, e.key, |buckets|)]
  }

  /** The buckets hold exactly the entries of the map, each once. */
  ghost predicate Holds<N>(hash: nat -> nat, buckets: seq<Chain<N>>, nodes: map<nat, N>) {
    && Placed(hash, buckets)
    && (forall b | 0 <= b < |buckets| :: DistinctKeys(buckets[b]))
    && (forall b, k | 0 <= b < |buckets| && 0 <= k < |buckets[b]| ::
          buckets[b][k].key in nodes && nodes[buckets[b][k].key] == buckets[b][k].node)
    && (forall key | key in nodes :: InTable(hash, buckets, Entry(key, nodes[key])))
  }

  /** The chain without the entry at position k. */
  function Without<N>(chain: Chain<N>, k: nat): Chain<N>
    requires k < |chain|
  {
    chain[..k] + chain[k + 1..]
  }

  // ----- What the operations do to the buckets -----

  lemma HoldsInserted<N>(hash: nat -> nat, buckets: seq<Chain<N>>, nodes: map<nat, N>, key: nat, node: N)
    requires Holds(hash, buckets, nodes) && key !in nodes && |buckets| > 0
    ensures var b := Bucket(hash, key, |buckets|);
      Holds(hash, buckets[b := [Entry(key, node)] + buckets[b]], nodes[key := node])
  {
    hide Bucket;
    var b := Bucket(hash, key, |buckets|);
    var buckets' := buckets[b := [Entry(key, node)] + buckets[b]];
    var nodes' := nodes[key := node];
    forall x | x in nodes' ensures InTable(hash, buckets', Entry(x, nodes'[x])) {
      if x == key {
        assert buckets'[b][0] == Entry(key, node);
      } else {
        assert InTable(hash, buckets, Entry(x, nodes[x]));
      }
    }
  }

  lemma WithoutAt<N>(chain: Chain<N>, k: nat)
    requires k < |chain| && DistinctKeys(chain)
    ensures var rest := Without(chain, k);
      && DistinctKeys(rest) && |rest| == |chain| - 1
      && (forall i | 0 <= i < |rest| :: rest[i] in chain && rest[i].key != chain[k].key)
      && (forall e | e in chain && e.key != chain[k].key :: e in rest)
  {
    var rest := Without(chain, k);
    forall i | 0 <= i < |rest| ensures rest[i] == chain[if i < k then i else i + 1] {}
    forall e | e in chain && e.key != chain[k].key ensures e in rest {
      var j :| 0 <= j < |chain| && chain[j] == e;
      assert rest[if j < k then j else j - 1] == e;
    }
  }

  lemma HoldsRemoved<N>(hash: nat -> nat, buckets: seq<Chain<N>>, nodes: map<nat, N>, key: nat, k: nat)
    requires Holds(hash, buckets, nodes) && |buckets| > 0
    requires k < |buckets[Bucket(hash, key, |buckets|)]| && buckets[Bucket(hash, key, |buckets|)][k].key == key
    ensures var b := Bucket(hash, key, |buckets|);
      key in nodes && nodes[key] == buckets[b][k].node
      && Holds(hash, buckets[b := Without(buckets[b], k)], nodes - {key})
  {
    hide Bucket, Without, DistinctKeys;
    var b := Bucket(hash, key, |buckets|);
    var chain: Chain<N> := Without(buckets[b], k);
    var buckets': seq<Chain<N>> := buckets[b := chain];
    WithoutAt(buckets[b], k);
    forall c, i | 0 <= c < |buckets| && 0 <= i < |buckets'[c]|
      ensures Bucket(hash, buckets'[c][i].key, |buckets|) == c
      ensures buckets'[c][i].key in nodes - {key} && nodes[buckets'[c][i].key] == buckets'[c][i].node
    {
      if c == b {
        var j :| 0 <= j < |buckets[b]| && buckets[b][j] == chain[i];
      }
    }
    forall x | x in nodes && x != key ensures InTable(hash, buckets', Entry(x, nodes[x])) {
      assert InTable(hash, buckets, Entry(x, nodes[x]));
    }
  }

  /** A key that is not in its chain is not in the map. */
  lemma Absent<N>(hash: nat -> nat, buckets: seq<Chain<N>>, nodes: map<nat, N>, key: nat)
    requires Holds(hash, buckets, nodes)
    requires |buckets| > 0 ==>
      forall j | 0 <= j < |buckets[Bucket(hash, key, |buckets|)]| :: buckets[Bucket(hash, key, |buckets|)][j].key != key
    ensures key !in nodes
  {
  }

  // ----- Rehashing -----

  /** Some of the nodes have been moved: those in buckets before p, and the first k in bucket p. */
  ghost predicate Moved<N>(hash: nat -> nat, buckets: seq<Chain<N>>, nodes: map<nat, N>, moved: map<nat, N>, p: nat, k: nat) {
    && (forall x | x in moved :: x in nodes && nodes[x] == moved[x])
    && (forall x | x in nodes && x !in moved :: exists b, j :: Ahead(buckets, b, j, p, k) && buckets[b][j].key == x)
    && (forall b, j | Ahead(buckets, b, j, p, k) :: buckets[b][j].key !in moved)
  }

  ghost predicate Ahead<N>(buckets: seq<Chain<N>>, b: int, j: int, p: nat, k: nat) {
    0 <= b < |buckets| && 0 <= j < |buckets[b]| && (b > p || (b == p && j >= k))
  }

  lemma MoveStarts<N>(hash: nat -> nat, buckets: seq<Chain<N>>, nodes: map<nat, N>)
    requires Holds(hash, buckets, nodes)
    ensures Moved(hash, buckets, nodes, map[], 0, 0)
  {
    hide Bucket;
    forall x | x in nodes ensures exists b, j :: Ahead(buckets, b, j, 0, 0) && buckets[b][j].key == x {
      assert InTable(hash, buckets, Entry(x, nodes[x]));
      var b := Bucket(hash, x, |buckets|);
      var j :| 0 <= j < |buckets[b]| && buckets[b][j] == Entry(x, nodes[x]);
      assert Ahead(buckets, b, j, 0, 0);
    }
  }

  /** No key lies at two places. */
  lemma OnePlace<N>(hash: nat -> nat, buckets: seq<Chain<N>>, nodes: map<nat, N>, b: nat, i: nat, c: nat, j: nat)
    requires Holds(hash, buckets, nodes)
    requires b < |buckets| && i < |buckets[b]| && c < |buckets| && j < |buckets[c]|
    requires buckets[b][i].key == buckets[c][j].key
    ensures b == c && i == j
  {
    assert Bucket(hash, buckets[b][i].key, |buckets|) == b && Bucket(hash, buckets[c][j].key, |buckets|) == c;
  }

  lemma MoveStep<N>(hash: nat -> nat, buckets: seq<Chain<N>>, nodes: map<nat, N>, moved: map<nat, N>, p: nat, k: nat)
    requires Holds(hash, buckets, nodes) && Moved(hash, buckets, nodes, moved, p, k)
    requires p < |buckets| && k < |buckets[p]|
    ensures var e := buckets[p][k];
      e.key !in moved && Moved(hash, buckets, nodes, moved[e.key := e.node], p, k + 1)
  {
    hide Bucket, DistinctKeys, Placed;
    var e := buckets[p][k];
    assert Ahead(buckets, p, k, p, k);
    forall x | x in nodes && x !in moved[e.key := e.node]
      ensures exists b, j :: Ahead(buckets, b, j, p, k + 1) && buckets[b][j].key == x
    {
      var b, j :| Ahead(buckets, b, j, p, k) && buckets[b][j].key == x;
      assert Ahead(buckets, b, j, p, k + 1);
    }
    forall b, j | Ahead(buckets, b, j, p, k + 1) ensures buckets[b][j].key !in moved[e.key := e.node] {
      assert Ahead(buckets, b, j, p, k);
      if buckets[b][j].key == e.key { OnePlace(hash, buckets, nodes, b, j, p, k); }
    }
  }

  lemma MoveOn<N>(hash: nat -> nat, buckets: seq<Chain<N>>, nodes: map<nat, N>, moved: map<nat, N>, p: nat)
    requires p < |buckets| && Moved(hash, buckets, nodes, moved, p, |buckets[p]|)
    ensures Moved(hash, buckets, nodes, moved, p + 1, 0)
  {
    forall b, j ensures Ahead(buckets, b, j, p, |buckets[p]|) <==> Ahead(buckets, b, j, p + 1, 0) {}
  }

  lemma MoveEnds<N>(hash: nat -> nat, buckets: seq<Chain<N>>, nodes: map<nat, N>, moved: map<nat, N>)
    requires Moved(hash, buckets, nodes, moved, |buckets|, 0)
    ensures moved == nodes
  {
  }

  lemma HoldsNothing<N>(hash: nat -> nat, n: nat)
    requires n > 0
    ensures Holds<N>(hash, seq(n, i => []), map[])
  {
    hide Bucket;
  }

  /** Every node is filed under one key. */
  ghost predicate OneToOne<N>(nodes: map<nat, N>, all: set<N>) {
    && (forall k | k in nodes :: nodes[k] in all)
    && (forall j, k | j in nodes && k in nodes && j != k :: nodes[j] != nodes[k])
  }

  lemma OneToOneInserted<N>(nodes: map<nat, N>, all: set<N>, key: nat, node: N)
    requires OneToOne(nodes, all) && key !in nodes && node !in all
    ensures OneToOne(nodes[key := node], all + {node})
  {
  }

  lemma OneToOneRemoved<N>(nodes: map<nat, N>, all: set<N>, key: nat)
    requires OneToOne(nodes, all) && key in nodes
    ensures OneToOne(nodes - {key}, all - {nodes[key]})
  {
  }

  // ----- Losing a chain -----

  /** The keys that share the bucket of `key` among n. */
  ghost function Sharing(hash: nat -> nat, n: nat, keys: set<nat>, key: nat): set<nat>
    requires n > 0
  {
    set k | k in keys && Bucket(hash, k, n) == Bucket(hash, key, n)
  }

  /** Those whose hashes agree modulo n. */
  lemma SharingByHash(hash: nat -> nat, n: nat, keys: set<nat>, key: nat, k: nat)
    requires n > 0
    ensures k in Sharing(hash, n, keys, key) <==> k in keys && hash(k) % n == hash(key) % n
  {
  }

  /** One more node finds a place: among the buckets there are, or in a larger array, whose size
      is the next prime that fits and for which there is memory. */
  ghost predicate CanGrow(size: nat, buckets: nat, memory: Memory) {
    size < buckets || (memory.forBuckets && exists p :: NextSize(buckets, p) && p < 0x4000_0000)
  }

  ghost predicate NextSize(before: nat, after: int) { LeastPrime(2 * before + 1, after) }

  lemma LeastPrimeUnique(n: int, p: int, q: int)
    requires LeastPrime(n, p) && LeastPrime(n, q)
    ensures p == q
  {
    hide Primality.IsPrime;
  }

  lemma CannotGrow(buckets: nat, r: PrimeWheel.Result, memory: Memory)
    requires 2 * buckets + 1 < 0x1_0000_0000
    requires r.Overflow? ==> forall p | 2 * buckets + 1 <= p < 0x1_0000_0000 :: !Primality.IsPrime(p)
    requires r.Least? ==> LeastPrime(2 * buckets + 1, r.p)
    ensures CanGrow(buckets, buckets, memory) <==> memory.forBuckets && r.Least? && r.p < 0x4000_0000
  {
    hide Primality.IsPrime;
    if p :| NextSize(buckets, p) && p < 0x4000_0000 {
      if r.Least? { LeastPrimeUnique(2 * buckets + 1, p, r.p); }
    }
    if r.Least? { assert NextSize(buckets, r.p); }
  }

  /** The number of buckets that one more node is put into. */
  ghost predicate BucketsAfter(size: nat, before: nat, after: nat) {
    after > 0 && if size < before then after == before else LeastPrime(2 * before + 1, after)
  }

  /** With its bucket emptied, the table holds what does not share it. */
  lemma HoldsEmptied<N>(hash: nat -> nat, buckets: seq<Chain<N>>, nodes: map<nat, N>, key: nat)
    requires Holds(hash, buckets, nodes) && |buckets| > 0
    ensures var b := Bucket(hash, key, |buckets|);
      Holds(hash, buckets[b := []], nodes - Sharing(hash, |buckets|, nodes.Keys, key))
    ensures var b := Bucket(hash, key, |buckets|);
      buckets[b] == [] <==> Sharing(hash, |buckets|, nodes.Keys, key) == {}
  {
    hide Bucket;
    var n, b := |buckets|, Bucket(hash, key, |buckets|);
    var lost := Sharing(hash, n, nodes.Keys, key);
    var buckets': seq<Chain<N>> := buckets[b := []];
    forall x | x in nodes - lost ensures InTable(hash, buckets', Entry(x, nodes[x])) {
      assert InTable(hash, buckets, Entry(x, nodes[x]));
    }
    if buckets[b] != [] { assert buckets[b][0].key in lost; }
    if k :| k in lost { assert InTable(hash, buckets, Entry(k, nodes[k])); }
  }

  lemma OneToOneLost<N>(nodes: map<nat, N>, all: set<N>, lost: set<nat>)
    requires OneToOne(nodes, all) && lost <= nodes.Keys
    ensures OneToOne(nodes - lost, all - (set k | k in lost :: nodes[k]))
    ensures |nodes - lost| <= |nodes|
    ensures nodes - lost == nodes <==> lost == {}
    ensures all - (set k | k in lost :: nodes[k]) == all <==> lost == {}
  {
    assert (nodes - lost).Keys == nodes.Keys - lost;
    if k :| k in lost { assert nodes[k] in all && k !in nodes - lost; }
  }

  class Table<N(==)> {
    const hash: nat -> nat
    var buckets: seq<Chain<N>>
    var size: nat
    /** What the chains hold, and its nodes. */
    ghost var nodes: map<nat, N>
    ghost var all: set<N>

    constructor (hash: nat -> nat)
      ensures Valid() && nodes == map[] && all == {} && size == 0 && buckets == [] && this.hash == hash
    {
      this.hash := hash;
      buckets, size, nodes, all := [], 0, map[], {};
    }

    ghost predicate Valid()
      reads this
    {
      |nodes| <= size <= |buckets| < MAX_BUCKETS && Holds(hash, buckets, nodes) && OneToOne(nodes, all)
    }

    /** Walks the chain of the key. */
    method Find(key: nat) returns (r: Option<N>)
      requires Valid()
      ensures r == if key in nodes then Some(nodes[key]) else None
    {
      hide Bucket;
      r := None;
      if |buckets| > 0 {
        var chain := buckets[Bucket(hash, key, |buckets|)];
        for k := 0 to |chain|
          invariant forall j | 0 <= j < k :: chain[j].key != key
        {
          if chain[k].key == key { return Some(chain[k].node); }
        }
      }
      Absent(hash, buckets, nodes, key);
    }

    /** Into n buckets: every chain is taken apart from its head, and each node is put at the
        head of its new chain. */
    method Rehash(n: nat)
      requires Valid() && |buckets| <= n < MAX_BUCKETS && n > 0
      modifies this`buckets
      ensures Valid() && |buckets| == n
    {
      hide Bucket, Holds, Moved;
      var chains := buckets;
      var larger: seq<Chain<N>> := seq(n, i => []);
      ghost var moved: map<nat, N> := map[];
      HoldsNothing<N>(hash, n);
      MoveStarts(hash, chains, nodes);
      for p := 0 to |chains|
        invariant |larger| == n && Holds(hash, larger, moved) && Moved(hash, chains, nodes, moved, p, 0)
      {
        for k := 0 to |chains[p]|
          invariant |larger| == n && Holds(hash, larger, moved) && Moved(hash, chains, nodes, moved, p, k)
        {
          var q: Entry<N> := chains[p][k];
          var h := Bucket(hash, q.key, n);
          MoveStep(hash, chains, nodes, moved, p, k);
          HoldsInserted(hash, larger, moved, q.key, q.node);
          larger := larger[h := [q] + larger[h]];
          moved := moved[q.key := q.node];
        }
        MoveOn(hash, chains, nodes, moved, p);
      }
      MoveEnds(hash, chains, nodes, moved);
      buckets := larger;
    }

    /** Another array, of prime size, when one more node would exceed the buckets. */
    method Grow(memory: Memory) returns (ok: bool)
      requires Valid()
      modifies this`buckets
      ensures ok <==> CanGrow(size, old(|buckets|), memory)
      ensures Valid() && (!ok ==> buckets == old(buckets))
      ensures ok ==> size < |buckets| && BucketsAfter(size, old(|buckets|), |buckets|)
    {
      hide Holds, Primality.IsPrime;
      if size + 1 <= |buckets| { return true; }
      var prime := PrimeWheel.NextPrime(2 * |buckets| + 1);
      CannotGrow(|buckets|, prime, memory);
      if prime.Overflow? || prime.p >= MAX_BUCKETS { return false; }
      if !memory.forBuckets { return false; }
      Rehash(prime.p);
      ok := true;
    }

    /** The insertion of `__insert_c`: the node is allocated first, and put at the head of its
        chain; false exactly when there is no memory for it or for the array it needs. */
    method Insert(key: nat, node: N, memory: Memory) returns (ok: bool)
      requires Valid() && key !in nodes && node !in all
      modifies this
      ensures ok <==> CanGrow(old(size), old(|buckets|), memory) && memory.forNode
      ensures ok ==> BucketsAfter(old(size), old(|buckets|), |buckets|)
      ensures Valid() && nodes == if ok then old(nodes)[key := node] else old(nodes)
      ensures all == if ok then old(all) + {node} else old(all)
      ensures size == old(size) + if ok then 1 else 0
    {
      hide Bucket, Holds, OneToOne, CanGrow;
      ok := Grow(memory);
      if !ok { return; }
      if !memory.forNode { return false; }
      HoldsInserted(hash, buckets, nodes, key, node);
      var b := Bucket(hash, key, |buckets|);
      buckets := buckets[b := [Entry(key, node)] + buckets[b]];
      size := size + 1;
      OneToOneInserted(nodes, all, key, node);
      nodes, all := nodes[key := node], all + {node};
    }

    /** The insertion of `__insert_iterator`: what the allocation delivers is stored at the head
        of the chain before it is looked at. When it delivers null the chain is gone: the table
        still holds what it held if and only if no key shared the bucket. */
    method InsertUnchecked(key: nat, node: N, memory: Memory) returns (r: Outcome)
      requires Valid() && key !in nodes && node !in all
      modifies this
      ensures r == if !CanGrow(old(size), old(|buckets|), memory) then NoArray else if memory.forNode then Done else NoNode
      ensures Valid() && size == old(size) + if r == Done then 1 else 0
      ensures r == NoArray ==> buckets == old(buckets) && nodes == old(nodes) && all == old(all)
      ensures r != NoArray ==> |buckets| > 0 && BucketsAfter(old(size), old(|buckets|), |buckets|)
      ensures r == Done ==> nodes == old(nodes)[key := node] && all == old(all) + {node}
      ensures r == NoNode ==>
        var lost := Sharing(hash, |buckets|, old(nodes).Keys, key);
        && nodes == old(nodes) - lost
        && (nodes == old(nodes) <==> lost == {}) && (all == old(all) <==> lost == {})
    {
      hide Bucket, Holds, OneToOne, LeastPrime, CanGrow;
      var ok := Grow(memory);
      if !ok { return NoArray; }
      var b := Bucket(hash, key, |buckets|);
      var p := buckets[b];
      if !memory.forNode {
        ghost var lost := Sharing(hash, |buckets|, nodes.Keys, key);
        HoldsEmptied(hash, buckets, nodes, key);
        OneToOneLost(nodes, all, lost);
        buckets := buckets[b := []];
        nodes, all := nodes - lost, all - (set k | k in lost :: nodes[k]);
        return NoNode;
      }
      HoldsInserted(hash, buckets, nodes, key, node);
      buckets := buckets[b := [Entry(key, node)] + p];
      size := size + 1;
      OneToOneInserted(nodes, all, key, node);
      nodes, all := nodes[key := node], all + {node};
      r := Done;
    }

    /** Unlinks the node of the key. */
    method Remove(key: nat) returns (r: Option<N>)
      requires Valid()
      modifies this
      ensures Valid() && nodes == old(nodes) - {key}
      ensures all == if key in old(nodes) then old(all) - {old(nodes)[key]} else old(all)
      ensures size == old(size) - if key in old(nodes) then 1 else 0
      ensures r == if key in old(nodes) then Some(old(nodes)[key]) else None
    {
      hide Bucket, Holds, Without, OneToOne;
      r := None;
      if |buckets| > 0 {
        var b := Bucket(hash, key, |buckets|);
        for k := 0 to |buckets[b]|
          invariant buckets == old(buckets) && nodes == old(nodes) && size == old(size)
          invariant forall j | 0 <= j < k :: buckets[b][j].key != key
        {
          if buckets[b][k].key == key {
            HoldsRemoved(hash, buckets, nodes, key, k);
            r := Some(buckets[b][k].node);
            buckets := buckets[b := Without(buckets[b], k)];
            size := size - 1;
            OneToOneRemoved(nodes, all, key);
            nodes, all := nodes - {key}, all - {nodes[key]};
            return;
          }
        }
      }
      Absent(hash, buckets, nodes, key);
    }
  }
}
