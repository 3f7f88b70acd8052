/** The iterator debug database: which containers exist, which iterators exist, and which
    container each iterator belongs to. */
module DebugDb {
  import opened HashTable
  import opened PrimeWheel

  type Address = nat
  const NULL: Address := 0

  /** A container and the iterators that belong to it: `[beg_, end_)`, with room up to `cap_`. */
  datatype CNode = CNode(key: nat, its: seq<Address>, cap: nat)

  /** An iterator and its container, or null. */
  datatype INode = INode(key: nat, c: Address)

  /** The two tables, from keys to node addresses, and the nodes in memory. */
  datatype World = World(ct: map<nat, Address>, it: map<nat, Address>,
                         cnodes: map<Address, CNode>, inodes: map<Address, INode>)

  ghost predicate Distinct(its: seq<Address>) {
    forall a, b | 0 <= a < b < |its| :: its[a] != its[b]
  }

  /** Every node is filed under its key, and nothing else is filed. */
  ghost predicate FiledC(ct: map<nat, Address>, cnodes: map<Address, CNode>) {
    && (forall k | k in ct :: ct[k] in cnodes && cnodes[ct[k]].key == k)
    && (forall a | a in cnodes :: a != NULL && cnodes[a].key in ct && ct[cnodes[a].key] == a)
  }

  ghost predicate FiledI(it: map<nat, Address>, inodes: map<Address, INode>) {
    && (forall k | k in it :: it[k] in inodes && inodes[it[k]].key == k)
    && (forall a | a in inodes :: inodes[a].key in it && it[inodes[a].key] == a)
  }

  /** The mirror relation: an iterator points to a container exactly when it occurs in the
      container's array, where nothing occurs twice. */
  ghost predicate Mirror(cnodes: map<Address, CNode>, inodes: map<Address, INode>) {
    && (forall a | a in cnodes :: Distinct(cnodes[a].its) && |cnodes[a].its| <= cnodes[a].cap)
    && (forall a, i | a in cnodes && i in cnodes[a].its :: i in inodes && inodes[i].c == a)
    && (forall i | i in inodes && inodes[i].c != NULL :: inodes[i].c in cnodes && i in cnodes[inodes[i].c].its)
  }

  ghost predicate Ok(w: World) {
    FiledC(w.ct, w.cnodes) && FiledI(w.it, w.inodes) && Mirror(w.cnodes, w.inodes)
  }

  /** What the database records: the containers, and for each iterator its container, if any. */
  datatype Record = Record(containers: set<nat>, owner: map<nat, Option<nat>>)

  ghost function RecordOf(w: World): Record {
    Record(w.ct.Keys, map k | k in w.it :: OwnerOf(w, w.it[k]))
  }

  ghost function OwnerOf(w: World, i: Address): Option<nat> {
    if i in w.inodes && w.inodes[i].c in w.cnodes then Some(w.cnodes[w.inodes[i].c].key) else None
  }

  // ----- The steps on nodes -----

  /** The room of an array with one more iterator: doubled when it was used up. */
  function RoomAfter(node: CNode): nat {
    if |node.its| < node.cap then node.cap else if node.cap == 0 then 1 else 2 * node.cap
  }

  function WithC(w: World, k: nat, a: Address): World {
    w.(ct := w.ct[k := a], cnodes := w.cnodes[a := CNode(k, [], 0)])
  }

  function WithI(w: World, k: nat, a: Address): World {
    w.(it := w.it[k := a], inodes := w.inodes[a := INode(k, NULL)])
  }

  /** The iterator at i joins the container at c, whose array has then this room. */
  function Bound(w: World, i: Address, c: Address, cap: nat): World
    requires i in w.inodes && c in w.cnodes
  {
    var node := w.cnodes[c];
    w.(cnodes := w.cnodes[c := node.(its := node.its + [i], cap := cap)], inodes := w.inodes[i := w.inodes[i].(c := c)])
  }

  /** The iterator at i leaves the container at c, where `rest` stays. */
  function Unbound(w: World, i: Address, c: Address, rest: seq<Address>): World
    requires i in w.inodes && c in w.cnodes
  {
    w.(cnodes := w.cnodes[c := w.cnodes[c].(its := rest)], inodes := w.inodes[i := w.inodes[i].(c := NULL)])
  }

  function DroppedI(w: World, k: nat, i: Address): World { w.(it := w.it - {k}, inodes := w.inodes - {i}) }
  function DroppedC(w: World, k: nat, c: Address): World { w.(ct := w.ct - {k}, cnodes := w.cnodes - {c}) }

  // ----- Each step keeps the relation -----

  /** The record follows when the owners of all iterators but one are the same. */
  lemma Recorded(w: World, w': World, k: nat, owner: Option<nat>)
    requires FiledI(w.it, w.inodes) && FiledI(w'.it, w'.inodes)
    requires w'.it.Keys == w.it.Keys + {k} && OwnerOf(w', w'.it[k]) == owner
    requires forall x | x in w.it && x != k :: w'.it[x] == w.it[x] && OwnerOf(w', w.it[x]) == OwnerOf(w, w.it[x])
    ensures RecordOf(w') == Record(w'.ct.Keys, RecordOf(w).owner[k := owner])
  {
    hide FiledI, OwnerOf;
  }

  lemma NewC(w: World, k: nat, a: Address)
    requires Ok(w) && k !in w.ct && a !in w.cnodes && a != NULL
    ensures Ok(WithC(w, k, a))
    ensures RecordOf(WithC(w, k, a)) == RecordOf(w).(containers := RecordOf(w).containers + {k})
  {
    var w' := WithC(w, k, a);
    FiledNewC(w, k, a);
    MirrorNewC(w.cnodes, w.inodes, k, a);
    OwnersNewC(w, k, a);
    hide FiledC, FiledI, Mirror, OwnerOf;
    assert RecordOf(w').owner == RecordOf(w).owner;
  }

  lemma FiledNewC(w: World, k: nat, a: Address)
    requires FiledC(w.ct, w.cnodes) && k !in w.ct && a !in w.cnodes && a != NULL
    ensures FiledC(WithC(w, k, a).ct, WithC(w, k, a).cnodes)
  {
  }

  lemma MirrorNewC(cnodes: map<Address, CNode>, inodes: map<Address, INode>, k: nat, a: Address)
    requires Mirror(cnodes, inodes) && a !in cnodes
    ensures Mirror(cnodes[a := CNode(k, [], 0)], inodes)
  {
  }

  lemma OwnersNewC(w: World, k: nat, a: Address)
    requires Ok(w) && k !in w.ct && a !in w.cnodes && a != NULL
    ensures forall x | x in w.it :: OwnerOf(WithC(w, k, a), w.it[x]) == OwnerOf(w, w.it[x])
  {
    hide FiledC, Distinct;
  }

  lemma NewI(w: World, k: nat, a: Address)
    requires Ok(w) && k !in w.it && a !in w.inodes
    ensures Ok(WithI(w, k, a))
    ensures RecordOf(WithI(w, k, a)) == RecordOf(w).(owner := RecordOf(w).owner[k := None])
  {
    FiledNewI(w, k, a);
    MirrorNewI(w.cnodes, w.inodes, k, a);
    NullIsNoNode(w);
    hide FiledC, Mirror;
    Recorded(w, WithI(w, k, a), k, None);
  }

  lemma NullIsNoNode(w: World)
    requires Ok(w)
    ensures NULL !in w.cnodes
  {
  }

  lemma FiledNewI(w: World, k: nat, a: Address)
    requires FiledI(w.it, w.inodes) && k !in w.it && a !in w.inodes
    ensures FiledI(WithI(w, k, a).it, WithI(w, k, a).inodes)
  {
  }

  lemma MirrorNewI(cnodes: map<Address, CNode>, inodes: map<Address, INode>, k: nat, a: Address)
    requires Mirror(cnodes, inodes) && a !in inodes
    ensures Mirror(cnodes, inodes[a := INode(k, NULL)])
  {
  }

  /** The keys of the nodes stay, so they are filed as before. */
  lemma SameKeys(w: World, w': World)
    requires FiledC(w.ct, w.cnodes) && FiledI(w.it, w.inodes) && w'.ct == w.ct && w'.it == w.it
    requires w'.cnodes.Keys == w.cnodes.Keys && forall a | a in w.cnodes :: w'.cnodes[a].key == w.cnodes[a].key
    requires w'.inodes.Keys == w.inodes.Keys && forall a | a in w.inodes :: w'.inodes[a].key == w.inodes[a].key
    ensures FiledC(w'.ct, w'.cnodes) && FiledI(w'.it, w'.inodes)
  {
  }

  lemma MirrorBound(w: World, i: Address, c: Address, cap: nat)
    requires i in w.inodes && c in w.cnodes
    requires Mirror(w.cnodes, w.inodes) && NULL !in w.cnodes && w.inodes[i].c == NULL && |w.cnodes[c].its| < cap
    ensures Mirror(Bound(w, i, c, cap).cnodes, Bound(w, i, c, cap).inodes)
  {
    assert i !in w.cnodes[c].its;
  }

  lemma Binding(w: World, i: Address, c: Address, cap: nat)
    requires Ok(w) && i in w.inodes && c in w.cnodes && w.inodes[i].c == NULL && |w.cnodes[c].its| < cap
    ensures Ok(Bound(w, i, c, cap))
    ensures RecordOf(Bound(w, i, c, cap)) == RecordOf(w).(owner := RecordOf(w).owner[w.inodes[i].key := Some(w.cnodes[c].key)])
  {
    var w' := Bound(w, i, c, cap);
    NullIsNoNode(w);
    SameKeys(w, w');
    hide FiledC;
    MirrorBound(w, i, c, cap);
    hide Mirror;
    Recorded(w, w', w.inodes[i].key, Some(w.cnodes[c].key));
  }

  /** `rest` is the array without i. */
  ghost predicate TakenOut(its: seq<Address>, rest: seq<Address>, i: Address) {
    |rest| < |its| && Distinct(rest) && forall x :: x in rest <==> x in its && x != i
  }

  lemma MirrorUnbound(w: World, i: Address, c: Address, rest: seq<Address>)
    requires i in w.inodes && c in w.cnodes && c != NULL
    requires Mirror(w.cnodes, w.inodes) && w.inodes[i].c == c && TakenOut(w.cnodes[c].its, rest, i)
    ensures Mirror(Unbound(w, i, c, rest).cnodes, Unbound(w, i, c, rest).inodes)
  {
    hide Distinct;
  }

  lemma Unbinding(w: World, i: Address, c: Address, rest: seq<Address>)
    requires Ok(w) && i in w.inodes && w.inodes[i].c == c && c in w.cnodes && TakenOut(w.cnodes[c].its, rest, i)
    ensures Ok(Unbound(w, i, c, rest))
    ensures RecordOf(Unbound(w, i, c, rest)) == RecordOf(w).(owner := RecordOf(w).owner[w.inodes[i].key := None])
  {
    var w' := Unbound(w, i, c, rest);
    NullIsNoNode(w);
    SameKeys(w, w');
    hide FiledC, TakenOut;
    MirrorUnbound(w, i, c, rest);
    hide Mirror;
    Recorded(w, w', w.inodes[i].key, None);
  }

  lemma DroppingI(w: World, k: nat)
    requires Ok(w) && k in w.it && w.inodes[w.it[k]].c == NULL
    ensures Ok(DroppedI(w, k, w.it[k]))
    ensures RecordOf(DroppedI(w, k, w.it[k])) == RecordOf(w).(owner := RecordOf(w).owner - {k})
  {
    hide Distinct;
    var w' := DroppedI(w, k, w.it[k]);
    forall j | j in w'.inodes ensures OwnerOf(w', j) == OwnerOf(w, j) {}
  }

  lemma DroppingC(w: World, k: nat)
    requires Ok(w) && k in w.ct && w.cnodes[w.ct[k]].its == []
    ensures Ok(DroppedC(w, k, w.ct[k]))
    ensures RecordOf(DroppedC(w, k, w.ct[k])) == RecordOf(w).(containers := RecordOf(w).containers - {k})
  {
    hide Distinct;
    var w' := DroppedC(w, k, w.ct[k]);
    forall j | j in w.inodes ensures OwnerOf(w', j) == OwnerOf(w, j) {}
  }

  lemma Gap(its: seq<Address>, r: nat)
    requires r < |its| && Distinct(its)
    ensures TakenOut(its, its[..r] + its[r + 1..], its[r])
  {
    var rest := its[..r] + its[r + 1..];
    forall a | 0 <= a < |rest| ensures rest[a] == its[if a < r then a else a + 1] {}
    forall x | x in its && x != its[r] ensures x in rest {
      var a :| 0 <= a < |its| && its[a] == x;
      assert rest[if a < r then a else a - 1] == x;
    }
  }

  // ----- The database -----

  /** The tables file the nodes in memory, and those lie below `unused`. */
  ghost predicate InMemory(w: World, cs: set<Address>, its: set<Address>, unused: Address) {
    && cs == w.cnodes.Keys && its == w.inodes.Keys && unused > 0
    && (forall a | a in cs :: a < unused) && (forall a | a in its :: a < unused)
  }

  lemma InMemoryFresh(w: World, cs: set<Address>, its: set<Address>, unused: Address)
    requires InMemory(w, cs, its, unused)
    ensures unused > 0 && unused !in w.cnodes && unused !in w.inodes && unused !in cs && unused !in its
    ensures forall k :: InMemory(WithC(w, k, unused), cs + {unused}, its, unused + 1)
    ensures forall k :: InMemory(WithI(w, k, unused), cs, its + {unused}, unused + 1)
  {
  }

  /** Iterators that the table has lost: their nodes stay in memory and in the arrays. */
  function LostI(w: World, lost: set<nat>): World { w.(it := w.it - lost) }

  lemma Losing(w: World, lost: set<nat>, cs: set<Address>, its: set<Address>, its': set<Address>, unused: Address)
    requires Ok(w) && InMemory(w, cs, its, unused) && lost <= w.it.Keys
    requires (w.it - lost == w.it <==> lost == {}) && (its' == its <==> lost == {})
    ensures RecordOf(LostI(w, lost)) == RecordOf(w).(owner := RecordOf(w).owner - lost)
    ensures Ok(LostI(w, lost)) && InMemory(LostI(w, lost), cs, its', unused) <==> lost == {}
  {
    hide Ok;
    assert forall i :: OwnerOf(LostI(w, lost), i) == OwnerOf(w, i);
    hide OwnerOf;
    assert RecordOf(LostI(w, lost)).owner == RecordOf(w).owner - lost;
  }

  /** Two iterators of one container. */
  function TwoIterators(): World {
    World(map[7 := 3], map[0 := 1, 1 := 2], map[3 := CNode(7, [1, 2], 2)], map[1 := INode(0, 3), 2 := INode(1, 3)])
  }

  lemma TwoIteratorsOk()
    ensures Ok(TwoIterators())
  {
    var w := TwoIterators();
    assert w.cnodes[3].its == [1, 2];
    assert Distinct([1, 2]);
    assert FiledC(w.ct, w.cnodes) && FiledI(w.it, w.inodes);
  }

  lemma SharesBucket()
    ensures Sharing(k => k, 5, {0, 1}, 5) == {0}
  {
    var lost := Sharing(k => k, 5, {0, 1}, 5);
    assert 0 in lost && 1 !in lost;
  }

  /** In a table of five buckets a third iterator shares the bucket of the first. When its node
      cannot be allocated, the first is no longer found, while the container still lists it. */
  lemma LostIteratorExample()
    ensures var w := TwoIterators();
      var lost := Sharing(k => k, 5, w.it.Keys, 5);
      && Ok(w) && !Ok(LostI(w, lost)) && 0 in w.it && 0 !in LostI(w, lost).it
      && 1 in LostI(w, lost).cnodes[3].its && w.it[0] == 1
  {
    hide Sharing;
    var w := TwoIterators();
    TwoIteratorsOk();
    SharesBucket();
    assert w.it.Keys == {0, 1};
    hide FiledC, Mirror;
    var w' := LostI(w, {0});
    assert 1 in w'.inodes && w'.inodes[1].key == 0 && 0 !in w'.it;
  }

  class Db {
    const containers: Table<Address>
    const iterators: Table<Address>
    /** The memory of the nodes. */
    var cnodes: map<Address, CNode>
    var inodes: map<Address, INode>
    /** No node has an address from here on. */
    var unused: Address

    constructor (hash: nat -> nat)
      ensures Valid() && fresh(containers) && fresh(iterators) && Contents() == Record({}, map[])
      ensures containers.buckets == iterators.buckets == [] && containers.size == iterators.size == 0
    {
      containers := new Table(hash);
      iterators := new Table(hash);
      cnodes, inodes, unused := map[], map[], 1;
    }

    ghost function W(): World
      reads this, containers, iterators
    {
      World(containers.nodes, iterators.nodes, cnodes, inodes)
    }

    ghost predicate Valid()
      reads this, containers, iterators
    {
      && (containers as object) != (iterators as object)
      && containers.Valid() && iterators.Valid()
      && InMemory(W(), containers.all, iterators.all, unused)
      && Ok(W())
    }

    ghost function Contents(): Record
      reads this, containers, iterators
    {
      RecordOf(W())
    }

    // ----- Looking up -----

    method FindC(k: nat) returns (r: Option<Address>)
      requires Valid()
      ensures r == if k in Contents().containers then Some(W().ct[k]) else None
    {
      hide Table.Valid, Ok, RecordOf, InMemory;
      r := containers.Find(k);
      RecordKeys(W());
    }

    method FindIterator(k: nat) returns (r: Option<Address>)
      requires Valid()
      ensures r == if k in Contents().owner then Some(W().it[k]) else None
    {
      hide Table.Valid, Ok, RecordOf, InMemory;
      r := iterators.Find(k);
      RecordKeys(W());
    }

    /** `__find_c_from_i`: the container of a known iterator. */
    method FindCFromI(i: nat) returns (r: Option<nat>)
      requires Valid() && i in Contents().owner
      ensures r == Contents().owner[i]
    {
      hide Table.Valid, Mirror;
      var node := iterators.Find(i);
      var c := inodes[node.value].c;
      NullIsNoNode(W());
      PointsToNode(W(), node.value);
      r := if c == NULL then None else Some(cnodes[c].key);
    }

    /** `__less_than_comparable`: both iterators belong to one container. */
    method LessThanComparable(i: nat, j: nat) returns (r: bool)
      requires Valid()
      ensures r <==> (i in Contents().owner && j in Contents().owner
                      && Contents().owner[i].Some? && Contents().owner[i] == Contents().owner[j])
    {
      hide Table.Valid, Mirror;
      NullIsNoNode(W());
      var ni := iterators.Find(i);
      var nj := iterators.Find(j);
      if ni.Some? { PointsToNode(W(), ni.value); }
      if nj.Some? { PointsToNode(W(), nj.value); }
      var ci := if ni.Some? then inodes[ni.value].c else NULL;
      var cj := if nj.Some? then inodes[nj.value].c else NULL;
      r := ci != NULL && ci == cj;
    }

    // ----- Entering -----

    /** `__insert_c`: each object is entered once. */
    method InsertC(k: nat, memory: Memory) returns (ok: bool)
      requires Valid() && k !in Contents().containers
      modifies this, containers
      ensures Valid()
      ensures ok <==> old(CanGrow(containers.size, |containers.buckets|, memory)) && memory.forNode
      ensures containers.size == old(containers.size) + if ok then 1 else 0
      ensures ok ==> BucketsAfter(old(containers.size), old(|containers.buckets|), |containers.buckets|)
      ensures Contents() == if ok then old(Contents()).(containers := old(Contents()).containers + {k}) else old(Contents())
    {
      hide Table.Valid, Ok, RecordOf, InMemory, BucketsAfter, CanGrow;
      RecordKeys(W());
      InMemoryFresh(W(), containers.all, iterators.all, unused);
      NewC(W(), k, unused);
      var a := unused;
      ok := containers.Insert(k, a, memory);
      if ok {
        cnodes := cnodes[a := CNode(k, [], 0)];
        unused := unused + 1;
      }
    }

    /** What is lost when the node for k cannot be allocated, among these iterators. */
    ghost function Sharers(keys: set<nat>, k: nat): set<nat>
      reads iterators
      requires |iterators.buckets| > 0
    {
      Sharing(iterators.hash, |iterators.buckets|, keys, k)
    }

    /** How the entry of an iterator ends. */
    ghost function Entering(memory: Memory): Outcome
      reads iterators
    {
      if !CanGrow(iterators.size, |iterators.buckets|, memory) then NoArray
      else if memory.forNode then Done
      else NoNode
    }

    /** `__insert_iterator`: each object is entered once. When the node cannot be allocated, the
        iterators that share the bucket are no longer found; the database is consistent after
        that if and only if there are none. */
    method InsertIterator(k: nat, memory: Memory) returns (r: Outcome, a: Address)
      requires Valid() && k !in Contents().owner
      modifies this, iterators
      ensures r == old(Entering(memory))
      ensures iterators.size == old(iterators.size) + if r == Done then 1 else 0
      ensures r != NoRoom && cnodes == old(cnodes) && Contents().containers == old(Contents()).containers
      ensures r != NoArray ==>
        |iterators.buckets| > 0 && BucketsAfter(old(iterators.size), old(|iterators.buckets|), |iterators.buckets|)
      ensures r == NoNode ==> Contents().owner == old(Contents()).owner - Sharers(old(Contents()).owner.Keys, k)
      ensures Valid() <==> (r == NoNode ==> Sharers(old(Contents()).owner.Keys, k) == {})
      ensures r == NoArray ==> Contents() == old(Contents())
      ensures r == Done ==> Contents().owner == old(Contents()).owner[k := None]
      ensures r == Done ==> a in inodes && inodes[a] == INode(k, NULL)
      ensures forall i | i in old(inodes) :: i in inodes && inodes[i] == old(inodes)[i]
    {
      hide Table.Valid, Ok, RecordOf, InMemory, BucketsAfter, Sharing, CanGrow;
      ghost var w, its := W(), iterators.all;
      RecordKeys(w);
      InMemoryFresh(w, containers.all, its, unused);
      NewI(w, k, unused);
      a := unused;
      r := iterators.InsertUnchecked(k, a, memory);
      if r == NoNode {
        ghost var lost := Sharers(w.it.Keys, k);
        SharersKnown(iterators.hash, |iterators.buckets|, w.it.Keys, k);
        Losing(w, lost, containers.all, its, iterators.all, unused);
      } else if r == Done {
        inodes := inodes[a := INode(k, NULL)];
        unused := unused + 1;
      }
    }

    // ----- The arrays of iterators -----

    /** The array of a recorded container is full, `end_ == cap_`: one more iterator needs memory. */
    ghost predicate Full(kc: nat)
      reads this, containers
    {
      && kc in containers.nodes && containers.nodes[kc] in cnodes
      && |cnodes[containers.nodes[kc]].its| == cnodes[containers.nodes[kc]].cap
    }

    /** `__add`: appends, doubling the room when it is used up. It fails exactly when it is
        used up and there is no memory for more. */
    method Add(c: Address, i: Address, memory: Memory) returns (ok: bool)
      requires c in cnodes && |cnodes[c].its| <= cnodes[c].cap
      modifies this`cnodes
      ensures ok <==> |old(cnodes)[c].its| < old(cnodes)[c].cap || memory.forRoom
      ensures !ok ==> cnodes == old(cnodes)
      ensures ok ==> var node := old(cnodes)[c];
        cnodes == old(cnodes)[c := node.(its := node.its + [i], cap := RoomAfter(node))]
    {
      var node := cnodes[c];
      if |node.its| == node.cap {
        if !memory.forRoom { return false; }
        node := node.(cap := if 2 * node.cap == 0 then 1 else 2 * node.cap);
      }
      cnodes := cnodes[c := node.(its := node.its + [i])];
      ok := true;
    }

    /** `__remove`: finds the iterator and closes the gap. */
    method Remove(c: Address, i: Address)
      requires c in cnodes && i in cnodes[c].its && Distinct(cnodes[c].its)
      modifies this`cnodes
      ensures c in cnodes && TakenOut(old(cnodes)[c].its, cnodes[c].its, i)
      ensures cnodes == old(cnodes)[c := old(cnodes)[c].(its := cnodes[c].its)]
    {
      hide Distinct, TakenOut;
      var its := cnodes[c].its;
      var r := 0;
      while its[r] != i
        invariant r < |its| && i !in its[..r] && cnodes == old(cnodes)
        decreases |its| - r
      {
        r := r + 1;
      }
      Gap(its, r);
      cnodes := cnodes[c := cnodes[c].(its := its[..r] + its[r + 1..])];
    }

    /** The end of `__insert_ic`: first the array, then the pointer. */
    method Bind(i: Address, c: Address, memory: Memory) returns (ok: bool)
      requires Valid() && i in inodes && c in cnodes && inodes[i].c == NULL
      modifies this`cnodes, this`inodes
      ensures Valid()
      ensures ok <==> |old(cnodes)[c].its| < old(cnodes)[c].cap || memory.forRoom
      ensures Contents() == if ok
        then old(Contents()).(owner := old(Contents()).owner[old(inodes)[i].key := Some(old(cnodes)[c].key)])
        else old(Contents())
    {
      hide Table.Valid, Ok, RecordOf, InMemory;
      ghost var w := W();
      NodeAt(w, c);
      ok := Add(c, i, memory);
      if !ok { return; }
      inodes := inodes[i := inodes[i].(c := c)];
      Binding(w, i, c, RoomAfter(w.cnodes[c]));
      InMemorySame(w, W(), containers.all, iterators.all, unused);
    }

    /** The end of `__iterator_copy`: first the pointer, then the array. The pointer is set in any
        case; the database is consistent afterwards if and only if the array had room or there
        was memory for more. */
    method Join(i: Address, c: Address, memory: Memory) returns (ok: bool)
      requires Valid() && i in inodes && c in cnodes && inodes[i].c == NULL
      modifies this`cnodes, this`inodes
      ensures Valid() <==> |old(cnodes)[c].its| < old(cnodes)[c].cap || memory.forRoom
      ensures ok <==> Valid()
      ensures Contents().containers == old(Contents()).containers
      ensures Contents().owner == old(Contents()).owner[old(inodes)[i].key := Some(old(cnodes)[c].key)]
    {
      hide Table.Valid, Ok, RecordOf, InMemory;
      ghost var w := W();
      NodeAt(w, c);
      inodes := inodes[i := inodes[i].(c := c)];
      ok := Add(c, i, memory);
      if !ok {
        PointerOnly(w, i, c);
        return;
      }
      Binding(w, i, c, RoomAfter(w.cnodes[c]));
      InMemorySame(w, W(), containers.all, iterators.all, unused);
    }

    /** `__insert_ic`: enters an iterator of a known container; otherwise it does nothing. When
        the array of the container is full and there is no memory for a larger one, the iterator
        is entered without a container and the relation holds; for the node, as above. */
    method InsertIC(k: nat, kc: nat, memory: Memory) returns (r: Outcome)
      requires Valid() && k !in Contents().owner
      modifies this, iterators
      ensures Contents().containers == old(Contents()).containers
      ensures kc !in old(Contents()).containers ==> r == Done && Contents() == old(Contents())
      ensures kc in old(Contents()).containers ==>
        r == if old(Entering(memory)) != Done then old(Entering(memory))
             else if old(Full(kc)) && !memory.forRoom then NoRoom
             else Done
      ensures kc in old(Contents()).containers && r != NoArray ==>
        |iterators.buckets| > 0 && BucketsAfter(old(iterators.size), old(|iterators.buckets|), |iterators.buckets|)
      ensures kc in old(Contents()).containers ==>
        iterators.size == old(iterators.size) + if r == Done || r == NoRoom then 1 else 0
      ensures r == NoNode ==> |iterators.buckets| > 0
      ensures Valid() <==> (r == NoNode ==> Sharers(old(Contents()).owner.Keys, k) == {})
      ensures kc in old(Contents()).containers ==>
        Contents().owner == match r
          case Done => old(Contents()).owner[k := Some(kc)]
          case NoArray => old(Contents()).owner
          case NoNode => old(Contents()).owner - Sharers(old(Contents()).owner.Keys, k)
          case NoRoom => old(Contents()).owner[k := None]
    {
      hide Table.Valid, Ok, RecordOf, InMemory, BucketsAfter, Sharing, CanGrow;
      r := Done;
      var found := FindC(kc);
      RecordKeys(W());
      if found.None? { return; }
      NodeOfKey(W(), kc);
      var a;
      r, a := InsertIterator(k, memory);
      if r != Done { return; }
      var ok := Bind(a, found.value, memory);
      if !ok { return NoRoom; }
    }

    // ----- Removing -----

    /** An iterator leaves its container: first the array, then the pointer. */
    method Unbind(i: Address)
      requires Valid() && i in inodes && inodes[i].c != NULL
      modifies this`cnodes, this`inodes
      ensures Valid() && i in inodes && inodes[i] == old(inodes)[i].(c := NULL)
      ensures Contents() == old(Contents()).(owner := old(Contents()).owner[old(inodes)[i].key := None])
      ensures W().ct == old(W()).ct && W().it == old(W()).it && cnodes.Keys == old(cnodes).Keys
      ensures forall a | a in cnodes :: cnodes[a].key == old(cnodes)[a].key
      ensures forall a | a in cnodes && a != old(inodes)[i].c :: cnodes[a] == old(cnodes)[a]
    {
      hide Table.Valid, Ok, RecordOf, InMemory, Distinct, TakenOut;
      ghost var w := W();
      var c := inodes[i].c;
      PointsToNode(w, i);
      NodeAt(w, c);
      Remove(c, i);
      inodes := inodes[i := inodes[i].(c := NULL)];
      Unbinding(w, i, c, cnodes[c].its);
      InMemorySame(w, W(), containers.all, iterators.all, unused);
    }

    /** The end of `__erase_i`: the node, unlinked already, leaves its container and is freed. */
    method Discard(i: Address, ghost w: World, ghost k: nat)
      requires Ok(w) && k in w.it && w.it[k] == i && W() == w.(it := w.it - {k})
      modifies this`cnodes, this`inodes
      ensures Ok(W()) && RecordOf(W()) == RecordOf(w).(owner := RecordOf(w).owner - {k})
      ensures cnodes.Keys == w.cnodes.Keys && inodes.Keys == w.inodes.Keys - {i}
    {
      hide Ok, RecordOf, Distinct, TakenOut;
      NodeOfIterator(w, k);
      PointsToNode(w, i);
      var c := inodes[i].c;
      if c != NULL {
        NodeAt(w, c);
        Remove(c, i);
        Erasing(w, k, cnodes[c].its);
      } else {
        DroppingI(w, k);
      }
      inodes := inodes - {i};
    }

    /** `__erase_i`: the node is unlinked, taken out of its container and freed. */
    method EraseI(k: nat)
      requires Valid()
      modifies this, iterators
      ensures Valid() && Contents() == old(Contents()).(owner := old(Contents()).owner - {k})
    {
      hide Table.Valid, Ok, RecordOf, InMemory;
      ghost var w := W();
      var r := iterators.Remove(k);
      if r.None? {
        NotOwner(w, k);
        return;
      }
      Discard(r.value, w, k);
      InMemoryLess(w, W(), containers.all, old(iterators.all), unused, r.value);
    }

    /** The iterators of a container, from the last one, lose it. */
    method ReleaseAll(c: Address, ghost ct: map<nat, Address>)
      requires c in cnodes && Ok(W().(ct := ct))
      modifies this`cnodes, this`inodes
      ensures Ok(W().(ct := ct)) && c in cnodes && cnodes[c].its == []
      ensures cnodes.Keys == old(cnodes).Keys && inodes.Keys == old(inodes).Keys
      ensures cnodes[c].key == old(cnodes)[c].key
      ensures RecordOf(W().(ct := ct)).owner == Orphaned(old(RecordOf(W().(ct := ct)).owner), cnodes[c].key)
    {
      hide Ok, RecordOf, Distinct, TakenOut, Released, Orphaned;
      ghost var owner, kc := RecordOf(W().(ct := ct)).owner, cnodes[c].key;
      ReleasedNone(owner, kc);
      while cnodes[c].its != []
        invariant c in cnodes && cnodes[c].key == kc && Ok(W().(ct := ct))
        invariant cnodes.Keys == old(cnodes).Keys && inodes.Keys == old(inodes).Keys
        invariant Released(owner, RecordOf(W().(ct := ct)).owner, kc)
        decreases |cnodes[c].its|
      {
        ghost var w := W().(ct := ct);
        var its := cnodes[c].its;
        var last := its[|its| - 1];
        LastOut(w, c);
        cnodes := cnodes[c := cnodes[c].(its := its[..|its| - 1])];
        inodes := inodes[last := inodes[last].(c := NULL)];
        Unbinding(w, last, c, its[..|its| - 1]);
        ReleasedOne(owner, RecordOf(w).owner, w, last, kc);
      }
      AllReleased(W().(ct := ct), c, owner);
    }

    /** `__invalidate_all`: the iterators of a known container lose it. */
    method InvalidateAll(k: nat)
      requires Valid()
      modifies this`cnodes, this`inodes
      ensures Valid() && Contents() == old(Contents()).(owner := Orphaned(old(Contents()).owner, k))
    {
      hide Table.Valid, Ok, RecordOf, InMemory, Orphaned;
      ghost var w := W();
      RecordKeys(w);
      var found := FindC(k);
      if found.None? {
        UnknownOwnsNothing(w, k);
        return;
      }
      NodeOfKey(w, k);
      ReleaseAll(found.value, w.ct);
      RecordKeys(W());
      InMemorySame(w, W(), containers.all, iterators.all, unused);
    }

    /** `__erase_c`: the node is unlinked, its iterators lose it, and it is freed. */
    method EraseC(k: nat)
      requires Valid()
      modifies this, containers
      ensures Valid()
      ensures Contents() == Record(old(Contents()).containers - {k}, Orphaned(old(Contents()).owner, k))
    {
      hide Table.Valid, Ok, RecordOf, InMemory, Orphaned;
      ghost var w := W();
      RecordKeys(w);
      var r := containers.Remove(k);
      if r.None? {
        NotContainer(w, k);
        UnknownOwnsNothing(w, k);
        return;
      }
      var c := r.value;
      NodeOfKey(w, k);
      ReleaseAll(c, w.ct);
      DroppingC(W().(ct := w.ct), k);
      RecordKeys(W().(ct := w.ct));
      cnodes := cnodes - {c};
      InMemoryLessC(w, W(), old(containers.all), iterators.all, unused, c);
    }

    // ----- Copying and swapping -----

    /** Copying the second iterator makes the first one join this container. */
    ghost predicate Joins(k: nat, k0: nat, kc: nat)
      reads this, containers, iterators
    {
      var owner := Contents().owner;
      k0 in owner && owner[k0] == Some(kc) && (k in owner ==> owner[k] != Some(kc))
    }

    /** `__iterator_copy`: the first iterator takes over the container of the second; an unknown
        second one is like one without a container. Two things break the database, and nothing
        else: the array of the container that is joined is full and there is no memory for a
        larger one; or there is none for the node, while its bucket is in use. */
    method IteratorCopy(k: nat, k0: nat, memory: Memory) returns (r: Outcome)
      requires Valid()
      modifies this, iterators
      ensures r ==
        if k !in old(Contents()).owner && k0 in old(Contents()).owner && old(Entering(memory)) != Done
        then old(Entering(memory))
        else if old(exists kc :: Joins(k, k0, kc) && Full(kc)) && !memory.forRoom then NoRoom
        else Done
      ensures r == NoNode ==>
        |iterators.buckets| > 0 && BucketsAfter(old(iterators.size), old(|iterators.buckets|), |iterators.buckets|)
      ensures Valid() <==> r != NoRoom && (r == NoNode ==> Sharers(old(Contents()).owner.Keys, k) == {})
      ensures r == NoArray ==> Contents() == old(Contents())
      ensures r == NoNode ==> Contents().containers == old(Contents()).containers
      ensures r == NoNode ==> Contents().owner == old(Contents()).owner - Sharers(old(Contents()).owner.Keys, k)
      ensures r == Done || r == NoRoom ==> Contents().containers == old(Contents()).containers
      ensures r == Done || r == NoRoom ==> Contents().owner == Copied(old(Contents()).owner, k, k0)
    {
      hide Table.Valid, Ok, RecordOf, InMemory, Copied, BucketsAfter, Sharing, CanGrow;
      ghost var w := W();
      RecordKeys(w);
      CopyCases(Contents().owner, k, k0);
      r := Done;
      var i := FindIterator(k);
      var i0 := FindIterator(k0);
      if i0.Some? { OwnerAt(w, k0); }
      if i.Some? { OwnerAt(w, k); }
      var c0 := if i0.Some? then inodes[i0.value].c else NULL;
      ghost var kc := if c0 != NULL then cnodes[c0].key else 0;
      assert c0 != NULL ==> (Full(kc) <==> |cnodes[c0].its| == cnodes[c0].cap);
      if c0 != NULL { NodeAt(w, c0); }
      if i.None? && i0.Some? {
        var a;
        r, a := InsertIterator(k, memory);
        if r != Done { return; }
        i := Some(a);
        RecordKeys(W());
        OwnerAt(W(), k);
      }
      var c := if i.Some? then inodes[i.value].c else NULL;
      if c != c0 {
        if c != NULL { Unbind(i.value); }
        if i.Some? && c0 != NULL {
          assert cnodes[c0] == w.cnodes[c0];
          assert old(Joins(k, k0, kc));
          var ok := Join(i.value, c0, memory);
          if !ok { r := NoRoom; }
        }
      }
    }

    /** Every iterator in the array of c points to c. */
    method PointAll(c: Address)
      requires c in cnodes && forall i | i in cnodes[c].its :: i in inodes
      modifies this`inodes
      ensures inodes == Pointed(old(inodes), cnodes[c].its, c)
    {
      var its := cnodes[c].its;
      for p := 0 to |its|
        invariant inodes.Keys == old(inodes).Keys
        invariant forall i | i in inodes :: inodes[i] == if i in its[..p] then old(inodes)[i].(c := c) else old(inodes)[i]
      {
        inodes := inodes[its[p] := inodes[its[p]].(c := c)];
        assert its[..p + 1] == its[..p] + [its[p]];
      }
      assert its[..|its|] == its;
      assert inodes == Pointed(old(inodes), its, c);
    }

    /** `swap`: two known containers exchange their iterators. */
    method Swap(k1: nat, k2: nat)
      requires Valid() && k1 in Contents().containers && k2 in Contents().containers
      modifies this`cnodes, this`inodes
      ensures Valid() && Contents() == old(Contents()).(owner := Exchanged(old(Contents()).owner, k1, k2))
    {
      hide Table.Valid, Ok, RecordOf, InMemory, Exchanged, Pointed;
      ghost var w := W();
      RecordKeys(w);
      NodeOfKey(w, k1);
      NodeOfKey(w, k2);
      var found1 := FindC(k1);
      var found2 := FindC(k2);
      var p1, p2 := found1.value, found2.value;
      var n1, n2 := cnodes[p1], cnodes[p2];
      SwapSetup(w, p1, p2);
      cnodes := cnodes[p1 := n1.(its := n2.its, cap := n2.cap)][p2 := n2.(its := n1.its, cap := n1.cap)];
      PointAll(p1);
      PointedKeys(w.inodes, cnodes[p1].its, p1);
      PointAll(p2);
      PointedKeys(Pointed(w.inodes, cnodes[p1].its, p1), cnodes[p2].its, p2);
      Swapping(w, k1, k2);
      RecordKeys(W());
      InMemorySame(w, W(), containers.all, iterators.all, unused);
    }
  }

  function Pointed(inodes: map<Address, INode>, its: seq<Address>, c: Address): map<Address, INode> {
    map i | i in inodes :: if i in its then inodes[i].(c := c) else inodes[i]
  }

  lemma PointedKeys(inodes: map<Address, INode>, its: seq<Address>, c: Address)
    ensures Pointed(inodes, its, c).Keys == inodes.Keys
  {
  }

  /** The world after the containers at c1 and c2 have exchanged their arrays. */
  ghost function Swapped(w: World, c1: Address, c2: Address): World
    requires c1 in w.cnodes && c2 in w.cnodes
  {
    var n1, n2 := w.cnodes[c1], w.cnodes[c2];
    var cnodes := w.cnodes[c1 := n1.(its := n2.its, cap := n2.cap)][c2 := n2.(its := n1.its, cap := n1.cap)];
    w.(cnodes := cnodes, inodes := Pointed(Pointed(w.inodes, cnodes[c1].its, c1), cnodes[c2].its, c2))
  }

  /** The two containers change places. */
  ghost function Exchanged(owner: map<nat, Option<nat>>, k1: nat, k2: nat): map<nat, Option<nat>> {
    map i | i in owner :: if owner[i] == Some(k1) then Some(k2) else if owner[i] == Some(k2) then Some(k1) else owner[i]
  }

  lemma SwapSetup(w: World, c1: Address, c2: Address)
    requires Ok(w) && c1 in w.cnodes && c2 in w.cnodes
    ensures forall i | i in w.cnodes[c1].its || i in w.cnodes[c2].its :: i in w.inodes
  {
    hide Distinct;
  }

  /** An iterator points to the other of the two containers, or where it pointed. */
  lemma SwappedPointers(w: World, c1: Address, c2: Address)
    requires Ok(w) && c1 in w.cnodes && c2 in w.cnodes
    ensures Swapped(w, c1, c2).inodes.Keys == w.inodes.Keys
    ensures forall i | i in w.inodes :: Swapped(w, c1, c2).inodes[i] == w.inodes[i].(c :=
      if w.inodes[i].c == c1 then c2 else if w.inodes[i].c == c2 then c1 else w.inodes[i].c)
  {
    hide Distinct, FiledI;
    var w' := Swapped(w, c1, c2);
    forall i | i in w.inodes
      ensures i in w.cnodes[c1].its <==> w.inodes[i].c == c1
      ensures i in w.cnodes[c2].its <==> w.inodes[i].c == c2
    {
      PointsToNode(w, i);
      NullIsNoNode(w);
    }
  }

  lemma SwappedMirror(w: World, c1: Address, c2: Address)
    requires Ok(w) && c1 in w.cnodes && c2 in w.cnodes
    ensures Mirror(Swapped(w, c1, c2).cnodes, Swapped(w, c1, c2).inodes)
  {
    SwappedPointers(w, c1, c2);
    NullIsNoNode(w);
    hide Distinct, FiledI, FiledC, Pointed;
  }

  lemma Swapping(w: World, k1: nat, k2: nat)
    requires Ok(w) && k1 in w.ct && k2 in w.ct
    requires w.ct[k1] in w.cnodes && w.ct[k2] in w.cnodes
    ensures var w' := Swapped(w, w.ct[k1], w.ct[k2]);
      Ok(w') && w'.cnodes.Keys == w.cnodes.Keys && w'.inodes.Keys == w.inodes.Keys
      && RecordOf(w') == RecordOf(w).(owner := Exchanged(RecordOf(w).owner, k1, k2))
  {
    var w' := Swapped(w, w.ct[k1], w.ct[k2]);
    SwappedPointers(w, w.ct[k1], w.ct[k2]);
    SwappedMirror(w, w.ct[k1], w.ct[k2]);
    NullIsNoNode(w);
    SwappedKeys(w, w.ct[k1], w.ct[k2]);
    hide Mirror, FiledC, FiledI, Swapped, OwnerOf;
    SameKeys(w, w');
    forall k | k in w.it
      ensures OwnerOf(w', w'.it[k]) == var o := OwnerOf(w, w.it[k]);
        if o == Some(k1) then Some(k2) else if o == Some(k2) then Some(k1) else o
    {
      NodeOfIterator(w, k);
      SwappedOwner(w, w', k1, k2, w.it[k]);
    }
    OwnersExchanged(w, w', k1, k2);
  }

  lemma SwappedKeys(w: World, c1: Address, c2: Address)
    requires c1 in w.cnodes && c2 in w.cnodes
    ensures var w' := Swapped(w, c1, c2);
      w'.ct == w.ct && w'.it == w.it && w'.cnodes.Keys == w.cnodes.Keys
      && forall a | a in w.cnodes :: w'.cnodes[a].key == w.cnodes[a].key
  {
    hide Pointed;
  }

  lemma OwnersExchanged(w: World, w': World, k1: nat, k2: nat)
    requires w'.it == w.it && w'.ct == w.ct
    requires forall k | k in w.it :: OwnerOf(w', w'.it[k]) == var o := OwnerOf(w, w.it[k]);
        if o == Some(k1) then Some(k2) else if o == Some(k2) then Some(k1) else o
    ensures RecordOf(w') == RecordOf(w).(owner := Exchanged(RecordOf(w).owner, k1, k2))
  {
    hide OwnerOf;
    assert RecordOf(w').owner == Exchanged(RecordOf(w).owner, k1, k2);
  }

  lemma SwappedOwner(w: World, w': World, k1: nat, k2: nat, i: Address)
    requires FiledC(w.ct, w.cnodes) && k1 in w.ct && k2 in w.ct && w.ct[k1] in w.cnodes && w.ct[k2] in w.cnodes
    requires i in w.inodes && i in w'.inodes && w'.cnodes == Swapped(w, w.ct[k1], w.ct[k2]).cnodes
    requires w'.inodes[i].c ==
      if w.inodes[i].c == w.ct[k1] then w.ct[k2] else if w.inodes[i].c == w.ct[k2] then w.ct[k1] else w.inodes[i].c
    ensures OwnerOf(w', i) == var o := OwnerOf(w, i);
      if o == Some(k1) then Some(k2) else if o == Some(k2) then Some(k1) else o
  {
    hide Pointed;
  }

  /** What copying the second iterator to the first records. */
  ghost function Copied(owner: map<nat, Option<nat>>, k: nat, k0: nat): map<nat, Option<nat>> {
    if k0 in owner then owner[k := owner[k0]]
    else if k in owner then owner[k := None]
    else owner
  }

  lemma CopyCases(owner: map<nat, Option<nat>>, k: nat, k0: nat)
    ensures k0 in owner ==> Copied(owner, k, k0) == owner[k := owner[k0]] == owner[k := None][k := owner[k0]]
    ensures k0 in owner && k in owner && owner[k] == owner[k0] ==> Copied(owner, k, k0) == owner
    ensures k0 !in owner ==> Copied(owner, k, k0) == if k in owner then owner[k := None] else owner
    ensures k0 !in owner && k in owner && owner[k] == None ==> Copied(owner, k, k0) == owner
  {
  }

  /** The owner of a known iterator, by its node. */
  lemma OwnerAt(w: World, k: nat)
    requires Ok(w) && k in w.it
    ensures w.it[k] in w.inodes && w.inodes[w.it[k]].key == k && k in RecordOf(w).owner
    ensures var c := w.inodes[w.it[k]].c;
      if c == NULL then RecordOf(w).owner[k] == None
      else c in w.cnodes && w.cnodes[c].key in w.ct && w.ct[w.cnodes[c].key] == c && RecordOf(w).owner[k] == Some(w.cnodes[c].key)
  {
    hide Distinct;
  }

  /** The iterators of the container are left without one. */
  ghost function Orphaned(owner: map<nat, Option<nat>>, k: nat): map<nat, Option<nat>> {
    map i | i in owner :: if owner[i] == Some(k) then None else owner[i]
  }

  /** Some of them are. */
  ghost predicate Released(owner: map<nat, Option<nat>>, owner': map<nat, Option<nat>>, k: nat) {
    owner'.Keys == owner.Keys && forall i | i in owner :: owner'[i] == owner[i] || (owner[i] == Some(k) && owner'[i] == None)
  }

  lemma ReleasedNone(owner: map<nat, Option<nat>>, k: nat)
    ensures Released(owner, owner, k)
  {
  }

  lemma LastOut(w: World, c: Address)
    requires Ok(w) && c in w.cnodes && w.cnodes[c].its != []
    ensures var its := w.cnodes[c].its;
      var last := its[|its| - 1];
      last in w.inodes && w.inodes[last].c == c && TakenOut(its, its[..|its| - 1], last)
  {
    var its := w.cnodes[c].its;
    Gap(its, |its| - 1);
    assert its[..|its| - 1] + its[|its|..] == its[..|its| - 1];
  }

  lemma ReleasedOne(owner: map<nat, Option<nat>>, before: map<nat, Option<nat>>, w: World, i: Address, k: nat)
    requires Ok(w) && i in w.inodes && before == RecordOf(w).owner && Released(owner, before, k)
    requires w.inodes[i].c in w.cnodes && w.cnodes[w.inodes[i].c].key == k
    ensures Released(owner, before[w.inodes[i].key := None], k)
  {
    hide Mirror, FiledC;
    assert before[w.inodes[i].key] == Some(k);
  }

  lemma AllReleased(w: World, c: Address, owner: map<nat, Option<nat>>)
    requires Ok(w) && c in w.cnodes && w.cnodes[c].its == []
    requires Released(owner, RecordOf(w).owner, w.cnodes[c].key)
    ensures RecordOf(w).owner == Orphaned(owner, w.cnodes[c].key)
  {
    forall i | i in w.it ensures RecordOf(w).owner[i] != Some(w.cnodes[c].key) {
      if RecordOf(w).owner[i] == Some(w.cnodes[c].key) { OwnersOf(w, i, w.cnodes[c].key); }
    }
  }

  /** The container that an iterator belongs to has it in its array. */
  lemma OwnersOf(w: World, i: nat, k: nat)
    requires Ok(w) && i in w.it && RecordOf(w).owner[i] == Some(k)
    ensures k in w.ct && w.ct[k] in w.cnodes && w.it[i] in w.cnodes[w.ct[k]].its
  {
    hide Distinct;
  }

  lemma UnknownOwnsNothing(w: World, k: nat)
    requires Ok(w) && k !in w.ct
    ensures Orphaned(RecordOf(w).owner, k) == RecordOf(w).owner
  {
    hide Mirror, FiledI;
    NullIsNoNode(w);
  }

  lemma NotContainer(w: World, k: nat)
    requires k !in w.ct
    ensures w.ct - {k} == w.ct && RecordOf(w).containers - {k} == RecordOf(w).containers
  {
  }

  lemma InMemoryLessC(w: World, w': World, cs: set<Address>, its: set<Address>, unused: Address, c: Address)
    requires InMemory(w, cs, its, unused) && w'.inodes.Keys == w.inodes.Keys && w'.cnodes.Keys == w.cnodes.Keys - {c}
    ensures InMemory(w', cs - {c}, its, unused)
  {
  }

  lemma NotOwner(w: World, k: nat)
    requires k !in w.it
    ensures w.it - {k} == w.it && RecordOf(w).owner - {k} == RecordOf(w).owner
  {
  }

  lemma NodeOfIterator(w: World, k: nat)
    requires Ok(w) && k in w.it
    ensures w.it[k] in w.inodes && w.inodes[w.it[k]].key == k
  {
  }

  /** Taking an iterator out of its array and freeing it. */
  lemma Erasing(w: World, k: nat, rest: seq<Address>)
    requires Ok(w) && k in w.it && w.it[k] in w.inodes && w.inodes[w.it[k]].c in w.cnodes
    requires TakenOut(w.cnodes[w.inodes[w.it[k]].c].its, rest, w.it[k])
    ensures var i := w.it[k];
      var c := w.inodes[i].c;
      var w' := World(w.ct, w.it - {k}, w.cnodes[c := w.cnodes[c].(its := rest)], w.inodes - {i});
      Ok(w') && RecordOf(w') == RecordOf(w).(owner := RecordOf(w).owner - {k})
  {
    hide Ok, RecordOf, TakenOut, OwnerOf;
    var i := w.it[k];
    var c := w.inodes[i].c;
    var w1 := Unbound(w, i, c, rest);
    NodeOfIterator(w, k);
    Unbinding(w, i, c, rest);
    DroppingI(w1, k);
    RecordKeys(w);
    assert DroppedI(w1, k, i).inodes == w.inodes - {i};
  }

  lemma InMemoryLess(w: World, w': World, cs: set<Address>, its: set<Address>, unused: Address, i: Address)
    requires InMemory(w, cs, its, unused) && w'.cnodes.Keys == w.cnodes.Keys
    requires w'.inodes.Keys == w.inodes.Keys - {i}
    ensures InMemory(w', cs, its - {i}, unused)
  {
  }

  lemma NodeAt(w: World, c: Address)
    requires Ok(w) && c in w.cnodes
    ensures c != NULL && |w.cnodes[c].its| <= w.cnodes[c].cap && Distinct(w.cnodes[c].its)
  {
  }

  /** The pointer alone: recorded, and not mirrored. */
  lemma PointerOnly(w: World, i: Address, c: Address)
    requires Ok(w) && i in w.inodes && w.inodes[i].c == NULL && c in w.cnodes
    ensures var w' := w.(inodes := w.inodes[i := w.inodes[i].(c := c)]);
      && !Ok(w')
      && RecordOf(w') == RecordOf(w).(owner := RecordOf(w).owner[w.inodes[i].key := Some(w.cnodes[c].key)])
  {
    var w' := w.(inodes := w.inodes[i := w.inodes[i].(c := c)]);
    NullIsNoNode(w);
    assert i in w'.inodes && w'.inodes[i].c == c != NULL;
    SameKeys(w, w');
    hide FiledC, Mirror;
    Recorded(w, w', w.inodes[i].key, Some(w.cnodes[c].key));
  }
  /** What the relation says of the container filed under a key. */
  lemma NodeOfKey(w: World, k: nat)
    requires Ok(w) && k in w.ct
    ensures var c := w.ct[k];
      c in w.cnodes && c != NULL && w.cnodes[c].key == k && |w.cnodes[c].its| <= w.cnodes[c].cap && Distinct(w.cnodes[c].its)
  {
  }

  lemma InMemorySame(w: World, w': World, cs: set<Address>, its: set<Address>, unused: Address)
    requires InMemory(w, cs, its, unused) && w'.cnodes.Keys == w.cnodes.Keys && w'.inodes.Keys == w.inodes.Keys
    ensures InMemory(w', cs, its, unused)
  {
  }

  lemma SharersKnown(hash: nat -> nat, n: nat, keys: set<nat>, k: nat)
    requires n > 0
    ensures Sharing(hash, n, keys, k) <= keys
  {
  }

  lemma RecordKeys(w: World)
    ensures RecordOf(w).containers == w.ct.Keys && RecordOf(w).owner.Keys == w.it.Keys
  {
  }

  lemma PointsToNode(w: World, i: Address)
    requires Ok(w) && i in w.inodes
    ensures w.inodes[i].c != NULL ==> w.inodes[i].c in w.cnodes && i in w.cnodes[w.inodes[i].c].its
  {
  }

  // ----- A program that loses an iterator -----

  /** Two, and then five, are the numbers of buckets for three iterators. */
  lemma BucketsForThree(after: nat)
    ensures BucketsAfter(0, 0, after) ==> after == 2
    ensures BucketsAfter(1, 2, after) ==> after == 2
    ensures BucketsAfter(2, 2, after) ==> after == 5
  {
    FirstPrimes();
  }

  lemma FifthBucket(hash: nat -> nat)
    requires forall k :: hash(k) == k
    ensures Sharing(hash, 5, {0, 1}, 5) == {0}
  {
    var lost := Sharing(hash, 5, {0, 1}, 5);
    assert 0 in lost && 1 !in lost;
  }

  lemma RoomForThree(memory: Memory)
    requires memory.forBuckets
    ensures CanGrow(0, 0, memory) && CanGrow(1, 2, memory) && CanGrow(2, 2, memory)
  {
    FirstPrimes();
    assert LeastPrime(1, 2) && LeastPrime(5, 5);
    assert NextSize(0, 2) && NextSize(2, 5);
  }

  /** An empty database, before any table has buckets. */
  ghost predicate New(db: Db)
    reads db, db.containers, db.iterators
  {
    && db.Valid() && db.Contents() == Record({}, map[])
    && db.containers.buckets == [] && db.containers.size == 0
    && db.iterators.buckets == [] && db.iterators.size == 0
  }

  const PLENTY: Memory := Memory(true, true, true)

  /** A container and two iterators of it. */
  method EnterTwo(db: Db)
    requires New(db)
    modifies db, db.containers, db.iterators
    ensures db.Valid() && db.Contents() == Record({7}, map[0 := Some(7), 1 := Some(7)])
    ensures db.iterators.size == 2 && |db.iterators.buckets| == 2
  {
    hide Table.Valid, Ok, RecordOf, InMemory, BucketsAfter, Sharing, Db.W, CanGrow;
    RoomForThree(PLENTY);
    var ok := db.InsertC(7, PLENTY);
    assert db.Contents() == Record({7}, map[]);
    var r := db.InsertIC(0, 7, PLENTY);
    BucketsForThree(|db.iterators.buckets|);
    assert db.Contents() == Record({7}, map[0 := Some(7)]);
    r := db.InsertIC(1, 7, PLENTY);
    BucketsForThree(|db.iterators.buckets|);
  }

  /** A third iterator shares the bucket of the first. Its node cannot be allocated, and the
      first iterator is lost. */
  method LostIteratorRun(db: Db)
    requires New(db) && forall k :: db.iterators.hash(k) == k
    modifies db, db.containers, db.iterators
    ensures !db.Valid() && db.Contents() == Record({7}, map[1 := Some(7)])
  {
    hide Table.Valid, Ok, RecordOf, InMemory, BucketsAfter, Sharing, Db.W, CanGrow;
    EnterTwo(db);
    RoomForThree(PLENTY.(forNode := false));
    var r, a := db.InsertIterator(5, PLENTY.(forNode := false));
    BucketsForThree(|db.iterators.buckets|);
    FifthBucket(db.iterators.hash);
    assert map[0 := Some(7), 1 := Some(7)].Keys == {0, 1};
  }
}
