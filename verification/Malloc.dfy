/** The allocator of contracts: a static first heap, and one heap that grows with the memory. */
module Malloc {
  import opened HeapBlocks
  import opened LinearMemory
  import opened Heap

  const HEAPS_SIZE: nat := 16
  const INITIAL_HEAP_SIZE: nat := 8192

  /** `adjust_to_mem_block`. */
  function Adjusted(size: nat): nat {
    var remainder := (size + MARKER) % 8;
    if remainder > 0 then size + 8 - remainder else size
  }

  /** The least size that is 4 modulo 8 and suffices. */
  lemma AdjustedIsLeast(size: nat)
    ensures Adjusted(size) >= size && Adjusted(size) % 8 == 4
    ensures forall n: nat | n >= size && n % 8 == 4 :: n >= Adjusted(size)
    ensures size <= 0x7fff_fffc ==> Adjusted(size) <= 0x7fff_fffc
  {
    var blocks, rest := (size + MARKER) / 8, (size + MARKER) % 8;
    assert size + MARKER == 8 * blocks + rest;
    assert Adjusted(size) + MARKER == 8 * if rest > 0 then blocks + 1 else blocks;
    forall n: nat | n >= size && n % 8 == 4 ensures n >= Adjusted(size) {
      assert n + MARKER == 8 * (n / 8 + 1);
    }
  }

  // ----- Two heaps side by side -----

  /** A heap is unaffected by changes within another. */
  lemma OtherHeap(m: Words, m': Words, a: nat, b: nat, heap: nat, heapSize: nat, offset: nat)
    requires HeapOk(m, heap, heapSize, offset) && ChangedWithin(m, m', a, b)
    requires b <= heap || heap + heapSize <= a
    ensures HeapOk(m', heap, heapSize, offset)
    ensures var live := LiveIn(m, heap, heapSize, offset);
      LiveIn(m', heap, heapSize, offset) == live && PayloadsKept(m, m', live, {})
  {
    hide Tiled, Live;
    HeapFrame(m, m', heap, heapSize, offset);
    LiveRange(m, heap, heapSize, offset);
  }

  lemma LiveRange(m: Words, heap: nat, heapSize: nat, offset: nat)
    requires HeapOk(m, heap, heapSize, offset)
    ensures var live := LiveIn(m, heap, heapSize, offset);
      forall p | p in live :: heap + MARKER <= p && p + live[p] <= heap + heapSize && live[p] >= 4
  {
    hide Tiled, Live;
    var live := LiveIn(m, heap, heapSize, offset);
    forall p | p in live
      ensures heap + MARKER <= p && p + live[p] <= heap + heapSize && live[p] >= 4
    {
      LiveBlock(m, heap, heap + offset, p);
    }
  }

  lemma Unions(a: map<nat, nat>, b: map<nat, nat>, p: nat, n: nat)
    ensures a + b[p := n] == (a + b)[p := n]
    ensures p !in b ==> a[p := n] + b == (a + b)[p := n] && (a - {p}) + b == (a + b) - {p}
    ensures p !in a ==> a + (b - {p}) == (a + b) - {p}
  {
  }

  lemma UnionKept(m: Words, m': Words, a: map<nat, nat>, b: map<nat, nat>, but: set<nat>)
    requires PayloadsKept(m, m', a, but) && PayloadsKept(m, m', b, but)
    ensures PayloadsKept(m, m', a + b, but)
  {
  }

  // ----- The active heap -----

  /** The active heap: where it begins, its used bytes and all of them; and where memory ends. */
  datatype Top = Top(base: nat, used: nat, capacity: nat, memory: nat)

  /** After one more page: it is added to the heap if it begins where the heap ends, and is a
      heap of its own otherwise. */
  function Grown(t: Top): (r: Top)
    ensures r.memory == t.memory + 65536
  {
    if t.base + t.capacity == t.memory then Top(t.base, t.used, t.capacity + 65536, t.memory + 65536)
    else Top(t.memory, 0, 65536, t.memory + 65536)
  }

  function GrownBy(t: Top, k: nat): Top {
    if k == 0 then t else Grown(GrownBy(t, k - 1))
  }

  predicate Fits(t: Top, n: nat) { t.used + n + 4 <= t.capacity }

  /** The least number of pages after which a block fits. */
  ghost predicate LeastPages(t: Top, k: nat, n: nat) {
    TooSmallUpTo(t, k, n) && Fits(GrownBy(t, k), n)
  }

  ghost predicate TooSmallUpTo(t: Top, k: nat, n: nat) {
    forall j | 0 <= j < k :: !Fits(GrownBy(t, j), n)
  }

  /** The host gives k more pages, one after the other. */
  ghost predicate Given(host: Host, pages: nat, k: nat) {
    k == 0 || (Given(host, pages, k - 1) && host(pages + k))
  }

  /** There is a block of n bytes, at once or after some pages that the host gives. */
  ghost predicate Obtainable(host: Host, t: Top, n: nat) {
    exists k: nat :: Given(host, t.memory / 65536, k) && LeastPages(t, k, n)
  }

  /** The block p of n bytes is the first that fits, after as few pages as possible. */
  ghost predicate Obtained(t: Top, t': Top, n: nat, p: nat) {
    exists k: nat :: LeastPages(t, k, n) && Taken(GrownBy(t, k), t', n, p)
  }

  predicate Taken(t: Top, t': Top, n: nat, p: nat) {
    t' == t.(used := t.used + n + 4) && p == t.base + t.used + 4
  }

  lemma {:induction false} GivenBefore(host: Host, pages: nat, k: nat, j: nat)
    requires Given(host, pages, k) && j <= k
    ensures Given(host, pages, j)
  {
    if j < k { GivenBefore(host, pages, k - 1, j); }
  }

  /** The next page after too few: refused, there is no block; otherwise it is one page more. */
  lemma OneMore(host: Host, t: Top, k: nat, n: nat)
    requires t.memory % 65536 == 0 && Given(host, t.memory / 65536, k) && TooSmallUpTo(t, k + 1, n)
    ensures if Refused(host, t.memory + 65536 * k) then !Obtainable(host, t, n)
            else Given(host, t.memory / 65536, k + 1)
  {
    NextPage(t.memory + 65536 * k, t.memory, k);
    forall j: nat | Given(host, t.memory / 65536, j) && LeastPages(t, j, n)
      ensures !Refused(host, t.memory + 65536 * k)
    {
      assert j > k || !Fits(GrownBy(t, j), n);
      GivenBefore(host, t.memory / 65536, j, k + 1);
    }
  }

  lemma ObtainedAfter(host: Host, t: Top, t': Top, k: nat, n: nat, p: nat)
    requires Given(host, t.memory / 65536, k) && LeastPages(t, k, n) && Taken(GrownBy(t, k), t', n, p)
    ensures Obtainable(host, t, n) && Obtained(t, t', n, p)
  {
  }

  /** A block that fits at once. */
  lemma ObtainedAtOnce(host: Host, t: Top, n: nat)
    requires Fits(t, n)
    ensures Obtainable(host, t, n)
    ensures forall t', p: nat | Obtained(t, t', n, p) :: Taken(t, t', n, p)
  {
    assert Given(host, t.memory / 65536, 0) && LeastPages(t, 0, n);
    forall t', p: nat | Obtained(t, t', n, p) ensures Taken(t, t', n, p) {
      var k: nat :| LeastPages(t, k, n) && Taken(GrownBy(t, k), t', n, p);
      LeastIsNone(t, k, n);
    }
  }

  lemma LeastIsNone(t: Top, k: nat, n: nat)
    requires Fits(t, n) && LeastPages(t, k, n)
    ensures k == 0
  {
    assert k == 0 || !Fits(GrownBy(t, 0), n);
  }

  lemma NoneYet(host: Host, t: Top, n: nat)
    ensures Given(host, t.memory / 65536, 0) && TooSmallUpTo(t, 0, n)
  {
  }

  lemma TooSmallStep(t: Top, k: nat, n: nat)
    requires TooSmallUpTo(t, k, n) && !Fits(GrownBy(t, k), n)
    ensures TooSmallUpTo(t, k + 1, n)
  {
  }

  /** The host refuses the next page of a memory of this size. */
  ghost predicate Refused(host: Host, size: nat) { !host(size / 65536 + 1) }

  lemma NextPage(size: nat, size0: nat, k: nat)
    requires size % 65536 == 0 && size0 % 65536 == 0 && size == size0 + 65536 * k
    ensures size / 65536 == size0 / 65536 + k
    ensures (size + 65536 + 65535) / 65536 == size / 65536 + 1 && (65536 + 7) / 8 * 8 == 65536
    ensures (size / 65536 + 1) * 65536 == size + 65536
  {
  }

  // ----- The manager -----

  class MemoryManager {
    const w: Wasm
    const initialHeap: nat
    const heaps: seq<Memory>
    var heapsActualSize: nat
    var activeHeap: nat
    var activeFreeHeap: nat

    constructor (w: Wasm, initialHeap: nat)
      requires initialHeap > 0 && initialHeap + 8192 <= |w.m| && |w.m| % 65536 == 0
      requires Zeros(w.m, initialHeap, initialHeap + 8192) && !w.initialized
      ensures this.w == w && this.initialHeap == initialHeap
      ensures Valid() && Fresh() && Live() == map[] && forall h | h in heaps :: fresh(h)
    {
      var hs: seq<Memory> := [];
      while |hs| < HEAPS_SIZE
        invariant |hs| <= HEAPS_SIZE
        invariant forall i | 0 <= i < |hs| :: fresh(hs[i]) && hs[i].w == w
        invariant forall i | 0 <= i < |hs| :: hs[i].heap == hs[i].heapSize == hs[i].offset == 0
        invariant forall i, j | 0 <= i < j < |hs| :: hs[i] != hs[j]
      {
        var h := new Memory(w);
        hs := hs + [h];
      }
      this.w, this.initialHeap, heaps := w, initialHeap, hs;
      heapsActualSize, activeHeap, activeFreeHeap := 0, 0, 0;
    }

    ghost predicate Shape() {
      && |heaps| == 16 && initialHeap > 0
      && (forall i | 0 <= i < HEAPS_SIZE :: heaps[i].w == w)
      && (forall i, j | 0 <= i < j < HEAPS_SIZE :: heaps[i] != heaps[j])
    }

    /** What holds between any two calls; never more than two of the sixteen heaps are in use. */
    ghost predicate Valid()
      reads this, w, heaps
    {
      && Shape()
      && |w.m| % 65536 == 0 && (w.initialized ==> w.sbrkBytes == |w.m|)
      && initialHeap + 8192 <= |w.m|
      && heaps[0].Ok() && heaps[1].Ok()
      && (Empty(heaps[1]) || heaps[0].heap + heaps[0].heapSize <= heaps[1].heap)
      && (forall i | 2 <= i < HEAPS_SIZE :: Empty(heaps[i]))
      && (Fresh() || Growing() || Exhausted())
    }

    ghost predicate Empty(h: Memory)
      reads h
    {
      h.heap == 0 && h.heapSize == 0 && h.offset == 0
    }

    ghost predicate Full(h: Memory)
      reads h
    {
      h.heap != 0 && h.heapSize > 0 && h.offset == h.heapSize
    }

    /** Before the first call. */
    ghost predicate Fresh()
      requires Shape()
      reads this, w, heaps
    {
      && heapsActualSize == activeHeap == activeFreeHeap == 0
      && Empty(heaps[0]) && Empty(heaps[1])
      && Zeros(w.m, initialHeap, initialHeap + 8192)
    }

    /** While memory can still grow: at most heap 1 is active, and then it ends where memory ends. */
    ghost predicate Growing()
      requires Shape()
      reads this, w, heaps
    {
      && heapsActualSize == HEAPS_SIZE && activeHeap <= 1 && activeFreeHeap == 0
      && heaps[0].heap == initialHeap && heaps[0].heapSize > 0
      && (activeHeap == 0 ==> Empty(heaps[1]))
      && (activeHeap == 1 ==> Full(heaps[0]) && heaps[1].heap != 0 && heaps[1].heapSize > 0
                              && heaps[1].heap + heaps[1].heapSize == |w.m|)
    }

    /** After the host has refused a page: every heap is divided into blocks to its end. */
    ghost predicate Exhausted()
      requires Shape()
      reads this, w, heaps
    {
      && Refused(w.host, |w.m|)
      && 1 <= heapsActualSize == activeHeap <= 2 && activeFreeHeap < heapsActualSize
      && Full(heaps[0]) && (activeHeap == 1 ==> Empty(heaps[1])) && (activeHeap == 2 ==> Full(heaps[1]))
    }

    /** The live blocks of all heaps. */
    ghost function Live(): map<nat, nat>
      requires Shape() && heaps[0].Ok() && heaps[1].Ok()
      reads this, w, heaps
    {
      heaps[0].Blocks() + heaps[1].Blocks()
    }

    /** In every state between calls: live blocks of all heaps lie in memory, have sizes that are
        4 modulo 8, and overlap neither each other nor each other's headers. */
    lemma LiveBlocksApart(p: nat, q: nat)
      requires Valid() && p in Live() && q in Live() && p < q
      ensures p >= MARKER && Live()[p] % 8 == 4 && Live()[q] % 8 == 4
      ensures p + Live()[p] + MARKER <= q && q + Live()[q] <= |w.m|
    {
      hide Tiled, HeapBlocks.Live, HeapOk, LiveIn;
      InHeap(w.m, heaps[0].heap, heaps[0].heapSize, heaps[0].offset, p, q);
      InHeap(w.m, heaps[1].heap, heaps[1].heapSize, heaps[1].offset, p, q);
    }

    /** The heap from which the next block is taken: the static one of 8192 bytes to begin with. */
    ghost function CurrentTop(): Top
      requires Shape()
      reads this, w, heaps
    {
      if Fresh() || activeHeap >= HEAPS_SIZE then Top(initialHeap, 0, 8192, |w.m|)
      else Top(heaps[activeHeap].heap, heaps[activeHeap].offset, heaps[activeHeap].heapSize, |w.m|)
    }

    /** The first heap holds a live block of 4 bytes and a freed one, and nothing else. */
    ghost predicate SecondFreed()
      requires Valid()
      reads this, w, heaps
    {
      Growing() && activeHeap == 0 && !Fresh() && CurrentTop() == Top(initialHeap, 16, 8192, |w.m|)
      && Live() == map[initialHeap + MARKER := 4]
    }

    lemma SecondFreedUnsafe()
      requires Valid() && SecondFreed()
      ensures initialHeap + MARKER in heaps[0].Blocks() && Home(initialHeap + MARKER) == 0
      ensures !Safe(0, initialHeap + MARKER, 20)
    {
      hide Tiled, HeapBlocks.Live, HeapOk, LiveIn, Wraps, LeavesUsed;
      EmptyHeap(w.m);
      assert heaps[0].Blocks() == Live();
      Heap.SecondFreed(w.m, heaps[0].heap, heaps[0].heapSize);
    }

    /** Heap i has a run of free blocks whose merged payload suffices. */
    ghost predicate ServedBy(i: nat, n: nat)
      requires Shape() && i < 2
      reads this, w, heaps
    {
      CanServe(w.m, heaps[i].heap, heaps[i].heap + heaps[i].heapSize, n)
    }

    /** Some heap has a run of free blocks whose merged payload suffices. */
    ghost predicate SomeCanServe(n: nat)
      requires Shape()
      reads this, w, heaps
    {
      ServedBy(0, n) || (heapsActualSize == 2 && ServedBy(1, n))
    }

    /** `current_memory->cleanup_remaining()`. */
    method CleanupActive()
      requires Valid() && Growing()
      modifies heaps[activeHeap], w`m
      ensures Valid() && Live() == old(Live()) && PayloadsKept(old(w.m), w.m, old(Live()), {})
      ensures |w.m| == |old(w.m)| && heaps[activeHeap].offset == heaps[activeHeap].heapSize
      ensures heaps[activeHeap].heap == old(heaps[activeHeap].heap)
      ensures heaps[activeHeap].heapSize == old(heaps[activeHeap].heapSize)
      ensures forall x | 0 <= x < |w.m| && x >= heaps[activeHeap].heap + heaps[activeHeap].heapSize :: w.m[x] == old(w.m)[x]
    {
      hide Tiled, HeapBlocks.Live, HeapOk, LiveIn, PayloadsKept, Refused;
      ghost var m, a, other := w.m, heaps[activeHeap], heaps[1 - activeHeap];
      ghost var oldA, oldB := a.Blocks(), other.Blocks();
      HeapBounds(m, a.heap, a.heapSize, a.offset);
      heaps[activeHeap].CleanupRemaining();
      if !Empty(other) {
        OtherHeap(m, w.m, a.heap, a.heap + a.heapSize, other.heap, other.heapSize, other.offset);
      } else {
        EmptyHeap(m);
        EmptyHeap(w.m);
      }
      UnionKept(m, w.m, heaps[0].Blocks(), heaps[1].Blocks(), {});
    }

    /** The calls of `sbrk`: from page boundary to page boundary, contiguous, one page at a time. */
    method Reserve() returns (start: nat, adj: nat)
      requires Valid()
      modifies w
      ensures heaps[0].Ok() && heaps[1].Ok() && Live() == old(Live()) && Extends(old(w.m), w.m)
      ensures w.initialized && w.sbrkBytes == |w.m| && |w.m| % 65536 == 0
      ensures heaps[0].heap + heaps[0].heapSize <= |old(w.m)| && heaps[1].heap + heaps[1].heapSize <= |old(w.m)|
      ensures if Refused(w.host, |old(w.m)|) then start == FAILED && w.m == old(w.m)
              else start == |old(w.m)| && adj == 65536 && |w.m| == start + 65536
      ensures Zeros(w.m, |old(w.m)|, |w.m|)
    {
      hide Tiled, HeapBlocks.Live, HeapOk, LiveIn;
      var size := w.Sbrk(0);
      adj := GrowthFrom(size);
      GrowthIsAligned(size);
      NextPage(size, size, 0);
      start := w.Sbrk(adj);
      HeapExtends(old(w.m), w.m, heaps[0].heap, heaps[0].heapSize, heaps[0].offset);
      HeapExtends(old(w.m), w.m, heaps[1].heap, heaps[1].heapSize, heaps[1].offset);
    }

    /** After a refused page: every heap in use is divided to its end. */
    method GiveUp()
      requires Valid() && Growing() && Refused(w.host, |w.m|)
      modifies this, heaps[activeHeap], w`m
      ensures Valid() && Exhausted() && Live() == old(Live())
      ensures PayloadsKept(old(w.m), w.m, old(Live()), {}) && |w.m| == |old(w.m)|
    {
      hide Tiled, HeapBlocks.Live, HeapOk, LiveIn, PayloadsKept, Refused;
      CleanupActive();
      activeHeap := activeHeap + 1;
      heapsActualSize := activeHeap;
    }

    /** Takes one more page into the active heap, or opens the next heap with it; null exactly when
        the host refuses the page. */
    method NextActiveHeap() returns (next: Memory?)
      requires Valid() && Growing()
      modifies this, w, heaps
      ensures Valid() && Live() == old(Live())
      ensures |w.m| >= |old(w.m)| && PayloadsKept(old(w.m), w.m, old(Live()), {})
      ensures next == null <==> Refused(w.host, |old(w.m)|)
      ensures next == null ==> Exhausted()
      ensures next != null ==> Growing() && next == heaps[activeHeap] && CurrentTop() == Grown(old(CurrentTop()))
    {
      hide Tiled, HeapBlocks.Live, HeapOk, LiveIn, PayloadsKept, Extends, Zeros, Refused;
      ghost var m0 := w.m;
      EmptyHeap(m0);
      var current := heaps[activeHeap];
      var start, adj := Reserve();
      ghost var m := w.m;
      KeptExtended(m0, m, m, Live());
      if start == FAILED {
        GiveUp();
        KeptExtended(m0, m, w.m, Live());
        return null;
      }
      var expanded := current.ExpandMemory(start, adj);
      if expanded { return current; }
      CleanupActive();
      KeptExtended(m0, m, w.m, Live());
      EmptyHeap(w.m);
      SameZeros(m, w.m, start, start + adj);
      activeHeap := activeHeap + 1;
      next := heaps[activeHeap];
      next.Init(start, adj);
    }

    // One heap's operation, seen from all heaps.

    method MallocActive(n: nat) returns (p: nat)
      requires Valid() && Growing() && n % 8 == 4 && n <= MAX_SIZE
      modifies heaps[activeHeap], w`m
      ensures Valid() && Growing() && |w.m| == |old(w.m)|
      ensures p == 0 ==> w.m == old(w.m) && Live() == old(Live())
      ensures p != 0 ==> p !in old(Live()) && Live() == old(Live())[p := n]
      ensures p != 0 ==> PayloadsKept(old(w.m), w.m, old(Live()), {})
      ensures p != 0 <==> Fits(old(CurrentTop()), n)
      ensures if p == 0 then CurrentTop() == old(CurrentTop()) else Taken(old(CurrentTop()), CurrentTop(), n, p)
    {
      hide Tiled, HeapBlocks.Live, HeapOk, LiveIn, PayloadsKept, Refused;
      ghost var m, a, other := w.m, heaps[activeHeap], heaps[1 - activeHeap];
      ghost var oldA, oldB := a.Blocks(), other.Blocks();
      HeapBounds(m, a.heap, a.heapSize, a.offset);
      p := heaps[activeHeap].Malloc(n);
      if p != 0 {
        Beside(m, w.m, a.heap, a.heapSize, other.heap, other.heapSize, other.offset, p);
        Unions(oldA, oldB, p, n);
        Unions(oldB, oldA, p, n);
        UnionKept(m, w.m, old(heaps[0].Blocks()), old(heaps[1].Blocks()), {});
      }
    }

    method MallocFreed(i: nat, n: nat) returns (p: nat)
      requires Valid() && Exhausted() && i < heapsActualSize && n % 8 == 4 && n <= MAX_SIZE
      modifies w`m
      ensures Valid() && Exhausted() && |w.m| == |old(w.m)|
      ensures ChangedWithin(old(w.m), w.m, heaps[i].heap, heaps[i].heap + heaps[i].heapSize)
      ensures PayloadsKept(old(w.m), w.m, old(Live()), {})
      ensures p != 0 <==> CanServe(old(w.m), heaps[i].heap, heaps[i].heap + heaps[i].heapSize, n)
      ensures p == 0 ==> Live() == old(Live())
      ensures p == 0 ==> !CanServe(w.m, heaps[i].heap, heaps[i].heap + heaps[i].heapSize, n)
      ensures p != 0 ==> p !in old(Live()) && Live() == old(Live())[p := n]
      ensures p != 0 ==> p >= MARKER && heaps[i].IsInHeap(p)
      ensures p != 0 ==> TooSmallBefore(old(w.m), heaps[i].heap, heaps[i].heap + heaps[i].heapSize, p - MARKER, n)
    {
      hide Tiled, HeapBlocks.Live, HeapOk, LiveIn, PayloadsKept, Refused, CanServe, TooSmallBefore,
        ChangedWithin, Fresh, Growing;
      ghost var m, a, other := w.m, heaps[i], heaps[1 - i];
      ghost var oldA, oldB := a.Blocks(), other.Blocks();
      HeapBounds(m, a.heap, a.heapSize, a.offset);
      p := heaps[i].MallocFromFreed(n);
      SameLength(m, w.m, a.heap, a.heap + a.heapSize);
      if p != 0 { BlockInHeap(w.m, a.heap, a.heapSize, a.offset, p); }
      Beside(m, w.m, a.heap, a.heapSize, other.heap, other.heapSize, other.offset, p);
      Unions(oldA, oldB, p, n);
      Unions(oldB, oldA, p, n);
      UnionKept(m, w.m, old(heaps[0].Blocks()), old(heaps[1].Blocks()), {});
    }

    method FreeIn(i: nat, ptr: nat)
      requires Valid() && i < 2 && ptr in heaps[i].Blocks()
      modifies w`m
      ensures Valid() && Live() == old(Live()) - {ptr} && |w.m| == |old(w.m)|
      ensures PayloadsKept(old(w.m), w.m, old(Live()), {})
    {
      hide Tiled, HeapBlocks.Live, HeapOk, LiveIn, PayloadsKept, Refused;
      ghost var m, a, other := w.m, heaps[i], heaps[1 - i];
      ghost var oldA, oldB := a.Blocks(), other.Blocks();
      NotEmpty(m, a.heap, a.heapSize, a.offset, ptr);
      heaps[i].Free(ptr);
      Beside(m, w.m, a.heap, a.heapSize, other.heap, other.heapSize, other.offset, ptr);
      Unions(oldA, oldB, ptr, 0);
      Unions(oldB, oldA, ptr, 0);
      UnionKept(m, w.m, old(heaps[0].Blocks()), old(heaps[1].Blocks()), {});
    }

    /** The heap of a live block. */
    ghost function Home(ptr: nat): nat
      requires Shape() && heaps[1].Ok()
      reads this, w, heaps
    {
      if ptr in heaps[1].Blocks() then 1 else 0
    }

    /** The heap in whose range the pointer lies. */
    method Find(ptr: nat) returns (found: bool, i: nat)
      requires Valid()
      ensures found ==> i < 2 && heaps[i].heap + 4 <= ptr < heaps[i].heap + heaps[i].heapSize
      ensures !found ==> forall j | 0 <= j < 2 :: !(heaps[j].heap + 4 <= ptr < heaps[j].heap + heaps[j].heapSize)
      ensures ptr in Live() ==> found && ptr in heaps[i].Blocks() && i == Home(ptr)
    {
      hide Tiled, HeapBlocks.Live, HeapOk, LiveIn;
      i := 0;
      if ptr in heaps[0].Blocks() { NotEmpty(w.m, heaps[0].heap, heaps[0].heapSize, heaps[0].offset, ptr); }
      if ptr in heaps[1].Blocks() { NotEmpty(w.m, heaps[1].heap, heaps[1].heapSize, heaps[1].offset, ptr); }
      while i < heapsActualSize && heaps[i].IsInit()
        invariant i <= heapsActualSize && i <= 2
        invariant forall j | 0 <= j < i :: !heaps[j].IsInHeap(ptr)
      {
        if heaps[i].IsInHeap(ptr) { return true, i; }
        i := i + 1;
      }
      found := false;
    }

    /** Where the next search begins: the heaps in use take turns. */
    method NextFreeHeap()
      requires Valid() && Exhausted()
      modifies this`activeFreeHeap
      ensures Valid() && Exhausted() && Live() == old(Live())
      ensures activeFreeHeap == if heapsActualSize == 1 then 0 else 1 - old(activeFreeHeap)
    {
      hide Tiled, HeapBlocks.Live, HeapOk, LiveIn, Refused, Fresh, Growing, ServedBy;
      activeFreeHeap := activeFreeHeap + 1;
      if activeFreeHeap == heapsActualSize { activeFreeHeap := 0; }
    }

    lemma Servers(n: nat)
      requires Valid() && Exhausted()
      ensures var a, b := heaps[activeFreeHeap], heaps[1 - activeFreeHeap];
        var here := CanServe(w.m, a.heap, a.heap + a.heapSize, n);
        var there := heapsActualSize == 2 && CanServe(w.m, b.heap, b.heap + b.heapSize, n);
        ServedBy(activeFreeHeap, n) == here && SomeCanServe(n) == (here || there)
    {
      hide Tiled, HeapBlocks.Live, HeapOk, Refused, CanServe;
    }

    lemma InTurn()
      requires Valid() && Exhausted()
      ensures activeFreeHeap < heapsActualSize <= 2
      ensures var a, b := heaps[activeFreeHeap], heaps[1 - activeFreeHeap];
        && a.heap + a.heapSize <= |w.m| && b.heap + b.heapSize <= |w.m|
        && (heapsActualSize == 2 ==> a.heap + a.heapSize <= b.heap || b.heap + b.heapSize <= a.heap)
    {
      hide Tiled, HeapBlocks.Live, Refused;
    }

    method MallocFromAllFreed(n: nat) returns (p: nat)
      requires Valid() && Exhausted() && n % 8 == 4 && n <= MAX_SIZE
      modifies this`activeFreeHeap, w`m
      ensures Valid() && Exhausted() && |w.m| == |old(w.m)|
      ensures PayloadsKept(old(w.m), w.m, old(Live()), {})
      ensures p != 0 <==> old(SomeCanServe(n))
      ensures p == 0 ==> Live() == old(Live()) && !SomeCanServe(n) && activeFreeHeap == old(activeFreeHeap)
      ensures p != 0 ==> p !in old(Live()) && Live() == old(Live())[p := n] && heaps[activeFreeHeap].IsInHeap(p)
      ensures p != 0 ==> old(ServedBy(activeFreeHeap, n)) ==> activeFreeHeap == old(activeFreeHeap)
    {
      hide Tiled, HeapBlocks.Live, HeapOk, LiveIn, PayloadsKept, Refused, CanServe, ChangedWithin, Passed;
      hide Fresh, Growing, Exhausted, Valid, Refused, ServedBy, SomeCanServe;
      InTurn();
      Servers(n);
      MemoryIsPages();
      var end := activeFreeHeap;
      ghost var m0, first, second := w.m, heaps[end], heaps[1 - end];
      ghost var a, aSize, b, bSize := first.heap, first.heapSize, second.heap, second.heapSize;
      ghost var round, live, could, here := 0, Live(), SomeCanServe(n), ServedBy(end, n);
      ghost var there := heapsActualSize == 2 && CanServe(m0, b, b + bSize, n);
      NothingChanged(m0, live);
      while true
        invariant Valid() && Shape() && Exhausted() && heaps[0].Ok() && heaps[1].Ok()
        invariant Live() == live && |w.m| == |m0| && 0 <= round <= 1
        invariant PayloadsKept(m0, w.m, live, {})
        invariant round == 0 ==> activeFreeHeap == end && w.m == m0
        invariant round == 1 ==> activeFreeHeap == 1 - end && heapsActualSize == 2 && !here
        invariant round == 1 ==> Passed(m0, w.m, a, aSize, n)
        decreases 2 - round
      {
        ghost var m := w.m;
        if round == 1 { SameService(m0, m, a, aSize, b, bSize, n); }
        InTurn();
        p := MallocFreed(activeFreeHeap, n);
        MemoryIsPages();
        KeptLater(m0, m, w.m, live);
        assert p != 0 <==> if round == 0 then here else there;
        if p != 0 { break; }
        NextFreeHeap();
        if round == 1 { StillPassed(m0, m, w.m, a, aSize, b, bSize, n); }
        if activeFreeHeap == end {
          Servers(n);
          break;
        }
        PassedBy(m0, w.m, a, aSize, n);
        round := 1;
      }
    }

    /** The search has gone through k pages, none of which made the block fit so far. */
    ghost predicate Searching(t: Top, k: nat, n: nat)
      requires Shape()
      reads this, w, heaps
    {
      && Growing() && CurrentTop() == GrownBy(t, k) && TooSmallUpTo(t, k, n)
      && t.memory % 65536 == 0 && |w.m| == t.memory + 65536 * k && Given(w.host, t.memory / 65536, k)
    }

    /** One more page for a block that does not fit. */
    method NextFor(ghost t: Top, ghost k: nat, n: nat) returns (next: Memory?)
      requires Valid() && Searching(t, k, n) && !Fits(CurrentTop(), n)
      modifies this, w, heaps
      ensures Valid() && Live() == old(Live()) && |w.m| >= |old(w.m)|
      ensures PayloadsKept(old(w.m), w.m, old(Live()), {})
      ensures next == null ==> Exhausted() && !Obtainable(w.host, t, n)
      ensures next != null ==> Growing() && Searching(t, k + 1, n) && next == heaps[activeHeap] && |w.m| > |old(w.m)|
    {
      hide Tiled, HeapBlocks.Live, HeapOk, LiveIn, PayloadsKept, TooSmallUpTo, Obtainable, Given, Grown, Fits,
        Refused, Fresh, Growing, Exhausted, Valid, CurrentTop;
      MemoryIsPages();
      TooSmallStep(t, k, n);
      OneMore(w.host, t, k, n);
      next := NextActiveHeap();
      MemoryIsPages();
    }

    /** The loop of `malloc`: takes pages until a block fits or a page is refused. */
    method MallocGrowing(n: nat) returns (p: nat)
      requires Valid() && Growing() && n % 8 == 4 && n <= MAX_SIZE
      modifies this, w, heaps
      ensures Valid() && |w.m| >= |old(w.m)|
      ensures PayloadsKept(old(w.m), w.m, old(Live()), {})
      ensures p != 0 <==> Obtainable(w.host, old(CurrentTop()), n)
      ensures p == 0 ==> Exhausted() && Live() == old(Live())
      ensures p != 0 ==> p !in old(Live()) && Live() == old(Live())[p := n]
      ensures p != 0 ==> Growing() && Obtained(old(CurrentTop()), CurrentTop(), n, p)
    {
      hide Tiled, HeapBlocks.Live, HeapOk, LiveIn, PayloadsKept, Obtainable, Obtained, Fits, Taken, GrownBy,
        Fresh, Growing, Exhausted, Valid, CurrentTop, Searching;
      MemoryIsPages();
      ghost var m0, t, k: nat, live := w.m, CurrentTop(), 0, Live();
      NothingChanged(m0, live);
      SearchBegins(n);
      p := 0;
      var current: Memory? := heaps[activeHeap];
      while current != null
        invariant Valid() && Shape() && heaps[0].Ok() && heaps[1].Ok() && p == 0 && Live() == live
        invariant |w.m| >= |m0| && PayloadsKept(m0, w.m, live, {})
        invariant current != null ==> activeHeap <= 1 && Searching(t, k, n) && current == heaps[activeHeap]
        invariant current == null ==> Exhausted() && !Obtainable(w.host, t, n)
        decreases 0x7fff_0000 - |w.m|, if current == null then 0 else 1
      {
        ghost var m := w.m;
        SearchState(t, k, n);
        p := MallocActive(n);
        KeptLater(m0, m, w.m, live);
        if p != 0 {
          ObtainedAfter(w.host, t, CurrentTop(), k, n, p);
          return;
        }
        SearchState(t, k, n);
        m := w.m;
        current := NextFor(t, k, n);
        KeptLater(m0, m, w.m, live);
        MemoryIsPages();
        k := k + 1;
      }
    }

    lemma SearchState(t: Top, k: nat, n: nat)
      requires Valid() && Shape()
      ensures Searching(t, k, n) <==>
        && Growing() && CurrentTop() == GrownBy(t, k) && TooSmallUpTo(t, k, n)
        && t.memory % 65536 == 0 && |w.m| == t.memory + 65536 * k && Given(w.host, t.memory / 65536, k)
      ensures Growing() ==> activeHeap <= 1
      ensures CurrentTop().memory == |w.m|
    {
    }

    lemma SearchBegins(n: nat)
      requires Valid() && Growing()
      ensures Searching(CurrentTop(), 0, n) && activeHeap <= 1
    {
      hide Tiled, HeapBlocks.Live;
      NoneYet(w.host, CurrentTop(), n);
    }

    lemma MemoryIsPages()
      requires Valid()
      ensures |w.m| % 65536 == 0 && Shape() && heaps[0].Ok() && heaps[1].Ok() && CurrentTop().memory == |w.m|
      ensures Growing() ==> activeHeap <= 1
    {
    }

    /** The allocation of `size` bytes, rounded up. A block is new and the others are untouched.
        While the host gives pages, there is a block: it stands where the active heap ends, after
        as few pages as suffice. Once a page has been refused, there is one exactly when some run
        of free blocks suffices. */
    method Malloc(size: nat) returns (p: nat)
      requires Valid() && size <= 0x7fff_fffc
      modifies this, w, heaps
      ensures Valid() && |w.m| >= |old(w.m)|
      ensures PayloadsKept(old(w.m), w.m, old(Live()), {})
      ensures size == 0 ==> p == 0
      ensures p == 0 ==> Live() == old(Live())
      ensures p != 0 ==> p !in old(Live()) && Live() == old(Live())[p := Adjusted(size)]
      ensures size > 0 && !old(Exhausted()) ==>
        if Obtainable(w.host, old(CurrentTop()), Adjusted(size))
        then p != 0 && Growing() && Obtained(old(CurrentTop()), CurrentTop(), Adjusted(size), p)
        else Exhausted()
      ensures size > 0 && old(Exhausted()) ==> Exhausted() && (p != 0 <==> old(SomeCanServe(Adjusted(size))))
      ensures p == 0 && size > 0 ==> Exhausted() && !SomeCanServe(Adjusted(size))
    {
      hide Tiled, HeapBlocks.Live, HeapOk, LiveIn, PayloadsKept, Refused, CanServe, Obtainable, Obtained;
      NothingChanged(w.m, Live());
      if size == 0 { return 0; }
      AdjustedIsLeast(size);
      ghost var m0 := w.m;
      if heapsActualSize == 0 { heapsActualSize := HEAPS_SIZE; }
      var n := Adjusted(size);
      p := 0;
      if activeHeap < heapsActualSize {
        if activeHeap == 0 && !heaps[0].IsInit() {
          EmptyHeap(w.m);
          heaps[0].Init(initialHeap, INITIAL_HEAP_SIZE);
        }
        p := MallocGrowing(n);
      }
      if p == 0 {
        ghost var m := w.m;
        p := MallocFromAllFreed(n);
        KeptLater(m0, m, w.m, old(Live()));
      }
    }

    method Free(ptr: nat)
      requires Valid() && (ptr == 0 || ptr in Live())
      modifies w`m
      ensures Valid() && Live() == old(Live()) - {ptr} && |w.m| == |old(w.m)|
      ensures PayloadsKept(old(w.m), w.m, old(Live()), {})
    {
      hide Tiled, HeapBlocks.Live, HeapOk, LiveIn, PayloadsKept;
      NothingChanged(w.m, Live());
      NullIsNotLive(w.m, heaps[0].heap, heaps[0].heapSize, heaps[0].offset);
      NullIsNotLive(w.m, heaps[1].heap, heaps[1].heapSize, heaps[1].offset);
      if ptr == 0 { return; }
      var found, i := Find(ptr);
      if found { FreeIn(i, ptr); }
    }

    /** The reallocation in place neither wraps around nor leaves the used part of the heap. */
    ghost predicate Safe(i: nat, ptr: nat, n: nat)
      requires Shape() && i < 2 && heaps[i].Ok() && ptr in heaps[i].Blocks()
      reads this, w, heaps
    {
      var h := heaps[i];
      !Wraps(w.m, h.heap, h.heapSize, h.offset, ptr, n) && !LeavesUsed(w.m, h.heap, h.heapSize, h.offset, ptr, n)
    }

    /** The block can have n bytes where it stands. */
    ghost predicate FitsWhereItStands(i: nat, ptr: nat, n: nat)
      requires Shape() && i < 2 && heaps[i].Ok() && ptr in heaps[i].Blocks()
      reads this, w, heaps
    {
      var h := heaps[i];
      FitsInPlace(w.m, h.heap, h.heapSize, h.offset, ptr, n)
    }

    /** What is not larger than the block always fits. */
    lemma SmallerFits(i: nat, ptr: nat, n: nat)
      requires Valid() && i < 2 && ptr in heaps[i].Blocks() && n % 8 == 4
      ensures n <= heaps[i].Blocks()[ptr] ==> FitsWhereItStands(i, ptr, n) && Safe(i, ptr, n)
    {
      hide Tiled, HeapBlocks.Live, HeapOk, LiveIn, FitsInPlace, Wraps, LeavesUsed, Refused;
      var h := heaps[i];
      InPlaceCases(w.m, h.heap, h.heapSize, h.offset, ptr, n);
    }

    method ReallocIn(i: nat, ptr: nat, n: nat) returns (p: nat, orig: nat)
      requires Valid() && i < 2 && ptr in heaps[i].Blocks() && n % 8 == 4 && n <= MAX_SIZE
      modifies heaps[i], w`m
      ensures orig == old(Live()[ptr])
      ensures Valid() <==> old(Safe(i, ptr, n))
      ensures !Valid() ==> p == ptr
      ensures Valid() ==> p == if old(FitsWhereItStands(i, ptr, n)) then ptr else 0
      ensures Valid() && p == 0 ==> w.m == old(w.m) && Live() == old(Live()) && unchanged(heaps[i])
      ensures Valid() && p != 0 ==> p == ptr && Live() == old(Live())[ptr := if n < orig then orig else n]
      ensures Valid() && p != 0 ==> PayloadsKept(old(w.m), w.m, old(Live()), {ptr})
      ensures Valid() && p != 0 ==> Kept(old(w.m), ptr, w.m, ptr, Least(orig, n))
      ensures |w.m| == |old(w.m)|
    {
      hide Tiled, HeapBlocks.Live, HeapOk, LiveIn, PayloadsKept, Refused, FitsInPlace, Wraps, LeavesUsed;
      ghost var m, a, other := w.m, heaps[i], heaps[1 - i];
      ghost var oldA, oldB := a.Blocks(), other.Blocks();
      NotEmpty(m, a.heap, a.heapSize, a.offset, ptr);
      p, orig := heaps[i].ReallocInPlace(ptr, n);
      Beside(m, w.m, a.heap, a.heapSize, other.heap, other.heapSize, other.offset, ptr);
      if a.Ok() {
        HeapBounds(w.m, a.heap, a.heapSize, a.offset);
        Unions(oldA, oldB, ptr, if n < orig then orig else n);
        Unions(oldB, oldA, ptr, if n < orig then orig else n);
        KeptWeaker(m, w.m, oldB, ptr);
        if p != 0 {
          UnionKept(m, w.m, old(heaps[0].Blocks()), old(heaps[1].Blocks()), {ptr});
          KeptInPlace(m, w.m, ptr, Least(orig, n));
        }
      }
    }

    /** `memcpy` into a live block. */
    method CopyInto(p: nat, src: nat, n: nat)
      requires Valid() && p in Live() && n <= Live()[p] && src + n <= |w.m|
      modifies w`m
      ensures Valid() && Live() == old(Live()) && |w.m| == |old(w.m)|
      ensures PayloadsKept(old(w.m), w.m, old(Live()), {p})
      ensures p + n <= |w.m| && w.m[p..p + n] == old(w.m)[src..src + n]
    {
      hide Tiled, HeapBlocks.Live, HeapOk, LiveIn, PayloadsKept, Refused;
      ghost var m, a, b := w.m, heaps[0], heaps[1];
      LiveInMemory(m, a.heap, a.heapSize, a.offset, p);
      LiveInMemory(m, b.heap, b.heapSize, b.offset, p);
      w.Copy(p, src, n);
      WriteLive(m, w.m, a.heap, a.heapSize, a.offset, b.heap, b.heapSize, b.offset, p);
    }

    /** The program stores an aligned word into one of its blocks. */
    method Store(p: nat, k: nat, word: Word)
      requires Valid() && p in Live() && k < Live()[p] && k % 4 == 0
      modifies w`m
      ensures Valid() && Live() == old(Live()) && p + k < |old(w.m)| && w.m == old(w.m)[p + k := word]
    {
      hide Tiled, HeapBlocks.Live, HeapOk, LiveIn, PayloadsKept, Refused;
      ghost var m, a, b := w.m, heaps[0], heaps[1];
      LiveInMemory(m, a.heap, a.heapSize, a.offset, p);
      LiveInMemory(m, b.heap, b.heapSize, b.offset, p);
      w.m := w.m[p + k := word];
      WriteLive(m, w.m, a.heap, a.heapSize, a.offset, b.heap, b.heapSize, b.offset, p);
    }

    /** The end of `realloc`: a new block, the contents copied, and the old block freed. */
    method Move(ptr: nat, n: nat, orig: nat) returns (r: nat)
      requires Valid() && n % 8 == 4 && n <= 0x7fff_fffc
      requires if ptr == 0 then orig == 0 else ptr in Live() && orig == Live()[ptr] > 0
      modifies this, w, heaps
      ensures Valid()
      ensures r == 0 ==> Live() == old(Live()) && Exhausted() && !SomeCanServe(n)
      ensures old(Exhausted()) ==> (r != 0 <==> old(SomeCanServe(n)))
      ensures !old(Exhausted()) && Obtainable(w.host, old(CurrentTop()), n) ==> r != 0
      ensures r != 0 ==> r !in old(Live()) && Live() == (old(Live()) - {ptr})[r := n]
      ensures r != 0 && ptr != 0 ==> Kept(old(w.m), ptr, w.m, r, Least(orig, n))
      ensures PayloadsKept(old(w.m), w.m, old(Live()), {})
    {
      hide Tiled, HeapBlocks.Live, HeapOk, LiveIn, PayloadsKept, Refused, CanServe, Kept, Obtainable, Obtained,
        Fresh, Growing, Exhausted, CurrentTop, SomeCanServe;
      ghost var m0, live0 := w.m, Live();
      NullIsNotLive(m0, heaps[0].heap, heaps[0].heapSize, heaps[0].offset);
      NullIsNotLive(m0, heaps[1].heap, heaps[1].heapSize, heaps[1].offset);
      LiveInMemory(m0, heaps[0].heap, heaps[0].heapSize, heaps[0].offset, ptr);
      LiveInMemory(m0, heaps[1].heap, heaps[1].heapSize, heaps[1].offset, ptr);
      AdjustedTwice(n);
      r := Malloc(n);
      if r == 0 { return 0; }
      ghost var m1 := w.m;
      var copySize := if n < orig then n else orig;
      if copySize > 0 {
        CopyInto(r, ptr, copySize);
        ghost var m2 := w.m;
        Free(ptr);
        CopyPath(m0, m1, m2, w.m, live0, ptr, r, n, copySize);
        Replaced(live0, ptr, r, n);
      }
    }

    /** Another size for a block. It stays where it is exactly when it fits there, as it always
        does when it shrinks; otherwise it moves to where `malloc` finds place. The result holds the first bytes of the former contents, as
        many as both sizes have, and the other blocks are untouched; a null result leaves
        everything. The allocator stays consistent exactly when the attempt in place neither
        wraps around nor leaves the used part of the heap. */
    method Realloc(ptr: nat, size: nat) returns (r: nat)
      requires Valid() && size <= MAX_SIZE && (ptr == 0 || ptr in Live())
      modifies this, w, heaps
      ensures Valid() <==> (size > 0 && ptr != 0 ==> old(Safe(Home(ptr), ptr, Adjusted(size))))
      ensures size == 0 ==> r == 0 && Live() == old(Live()) - {ptr}
      ensures Valid() && size > 0 && r == 0 ==> Live() == old(Live())
      ensures Valid() && size > 0 && r == 0 ==> Exhausted() && !SomeCanServe(Adjusted(size))
      ensures Valid() && size > 0 && ptr != 0 ==> (r == ptr <==> old(FitsWhereItStands(Home(ptr), ptr, Adjusted(size))))
      ensures size > 0 && ptr != 0 && Adjusted(size) <= old(Live()[ptr]) ==> Valid() && r == ptr
      ensures Valid() && size > 0 && old(Exhausted()) && (ptr == 0 || r != ptr) ==> (r != 0 <==> old(SomeCanServe(Adjusted(size))))
      ensures Valid() && size > 0 && !old(Exhausted()) && Obtainable(w.host, old(CurrentTop()), Adjusted(size)) ==> r != 0
      ensures Valid() && r != 0 ==> r == ptr || r !in old(Live())
      ensures Valid() && r != 0 ==> Live() == (old(Live()) - {ptr})[r := SizeAfter(old(Live()), ptr, r, Adjusted(size))]
      ensures Valid() && r != 0 && ptr != 0 ==>
        Kept(old(w.m), ptr, w.m, r, Least(old(Live())[ptr], Adjusted(size)))
      ensures Valid() ==> PayloadsKept(old(w.m), w.m, old(Live()), if r == ptr && r != 0 then {ptr} else {})
    {
      hide Tiled, HeapBlocks.Live, HeapOk, LiveIn, PayloadsKept, Refused, Wraps, LeavesUsed, FitsInPlace, CanServe, Safe, Kept,
        FitsWhereItStands, Obtainable, CurrentTop, SomeCanServe, Fresh, Growing, Exhausted;
      if size == 0 {
        Free(ptr);
        return 0;
      }
      AdjustedIsLeast(size);
      var n := Adjusted(size);
      var orig := 0;
      NullIsNotLive(w.m, heaps[0].heap, heaps[0].heapSize, heaps[0].offset);
      NullIsNotLive(w.m, heaps[1].heap, heaps[1].heapSize, heaps[1].offset);
      BlockNotEmpty(w.m, heaps[0].heap, heaps[0].heapSize, heaps[0].offset, ptr);
      BlockNotEmpty(w.m, heaps[1].heap, heaps[1].heapSize, heaps[1].offset, ptr);
      if ptr != 0 {
        var found, i := Find(ptr);
        if found {
          SmallerFits(i, ptr, n);
          r, orig := ReallocIn(i, ptr, n);
          if r != 0 { return r; }
        }
      }
      r := Move(ptr, n, orig);
    }
  }

  /** Shrinking in place keeps the recorded size. */
  ghost function SizeAfter(live: map<nat, nat>, ptr: nat, r: nat, n: nat): nat {
    if r == ptr && ptr in live && n < live[ptr] then live[ptr] else n
  }

  lemma AdjustedTwice(n: nat)
    requires n % 8 == 4
    ensures Adjusted(n) == n
  {
  }

  lemma BlockNotEmpty(m: Words, heap: nat, heapSize: nat, offset: nat, p: nat)
    requires HeapOk(m, heap, heapSize, offset)
    ensures p in LiveIn(m, heap, heapSize, offset) ==> LiveIn(m, heap, heapSize, offset)[p] > 0
  {
    LiveRange(m, heap, heapSize, offset);
  }

  lemma KeptInPlace(m: Words, m': Words, p: nat, n: nat)
    requires |m'| == |m| && p + n <= |m| && forall x | p <= x < p + n :: m'[x] == m[x]
    ensures Kept(m, p, m', p, n)
  {
  }

  /** Allocating, copying and freeing: the contents arrive and the others stay. */
  lemma CopyPath(m0: Words, m1: Words, m2: Words, m3: Words, live: map<nat, nat>, ptr: nat, r: nat, n: nat, c: nat)
    requires |m0| <= |m1| && |m2| == |m1| && |m3| == |m1|
    requires ptr in live && r !in live && c <= n && c <= live[ptr]
    requires ptr + live[ptr] <= |m0| && r + c <= |m1|
    requires PayloadsKept(m0, m1, live, {}) && PayloadsKept(m1, m2, live[r := n], {r})
    requires PayloadsKept(m2, m3, live[r := n], {}) && m2[r..r + c] == m1[ptr..ptr + c]
    ensures Kept(m0, ptr, m3, r, c) && PayloadsKept(m0, m3, live, {})
  {
    hide PayloadsKept;
    KeptBlock(m0, m1, live, ptr, c);
    KeptBlock(m2, m3, live[r := n], r, c);
    KeptWithout(m1, m2, live, r, n, {r});
    KeptWithout(m2, m3, live, r, n, {});
    KeptLater(m0, m1, m2, live);
    KeptLater(m0, m2, m3, live);
  }

  lemma Replaced(live: map<nat, nat>, ptr: nat, r: nat, n: nat)
    requires ptr != r
    ensures live[r := n] - {ptr} == (live - {ptr})[r := n]
  {
  }

  lemma KeptBlock(m: Words, m': Words, live: map<nat, nat>, p: nat, c: nat)
    requires PayloadsKept(m, m', live, {}) && p in live && c <= live[p] && p + c <= |m| && p + c <= |m'|
    ensures m'[p..p + c] == m[p..p + c]
  {
  }

  /** The blocks that were there before a new one. */
  lemma KeptWithout(m: Words, m': Words, live: map<nat, nat>, r: nat, n: nat, but: set<nat>)
    requires PayloadsKept(m, m', live[r := n], but) && r !in live && but <= {r}
    ensures PayloadsKept(m, m', live, {})
  {
    forall p, x | p in live && p <= x < p + live[p] && x < |m| && x < |m'| ensures m'[x] == m[x] {
      assert p in live[r := n] && p !in but;
    }
  }

  function Least(a: nat, b: nat): nat { if a < b then a else b }

  /** The first n bytes at p' are those that were at p. */
  ghost predicate Kept(m: Words, p: nat, m': Words, p': nat, n: nat) {
    p + n <= |m| && p' + n <= |m'| && m'[p'..p' + n] == m[p..p + n]
  }

  lemma KeptWeaker(m: Words, m': Words, live: map<nat, nat>, p: nat)
    requires PayloadsKept(m, m', live, {})
    ensures PayloadsKept(m, m', live, {p})
  {
  }

  lemma LiveInMemory(m: Words, heap: nat, heapSize: nat, offset: nat, p: nat)
    requires HeapOk(m, heap, heapSize, offset)
    ensures p in LiveIn(m, heap, heapSize, offset) ==>
      heap + MARKER <= p && p + LiveIn(m, heap, heapSize, offset)[p] <= heap + heapSize <= |m|
  {
    LiveRange(m, heap, heapSize, offset);
  }

  /** Writing inside one payload, seen from two heaps. */
  lemma WriteLive(m: Words, m': Words, h0: nat, s0: nat, o0: nat, h1: nat, s1: nat, o1: nat, p: nat)
    requires HeapOk(m, h0, s0, o0) && HeapOk(m, h1, s1, o1)
    requires h1 == s1 == o1 == 0 || h0 + s0 <= h1
    requires var live := LiveIn(m, h0, s0, o0) + LiveIn(m, h1, s1, o1);
      p in live && ChangedWithin(m, m', p, p + live[p])
    ensures HeapOk(m', h0, s0, o0) && HeapOk(m', h1, s1, o1)
    ensures LiveIn(m', h0, s0, o0) == LiveIn(m, h0, s0, o0) && LiveIn(m', h1, s1, o1) == LiveIn(m, h1, s1, o1)
    ensures PayloadsKept(m, m', LiveIn(m, h0, s0, o0) + LiveIn(m, h1, s1, o1), {p})
  {
    hide Tiled, HeapBlocks.Live, HeapOk, LiveIn, PayloadsKept;
    var a, b := LiveIn(m, h0, s0, o0), LiveIn(m, h1, s1, o1);
    LiveInMemory(m, h0, s0, o0, p);
    LiveInMemory(m, h1, s1, o1, p);
    if p in b {
      NotEmpty(m, h1, s1, o1, p);
      WritePayload(m, m', h1, s1, o1, p);
      Beside(m, m', h1, s1, h0, s0, o0, p);
      KeptWeaker(m, m', a, p);
    } else {
      NotEmpty(m, h0, s0, o0, p);
      WritePayload(m, m', h0, s0, o0, p);
      Beside(m, m', h0, s0, h1, s1, o1, p);
      KeptWeaker(m, m', b, p);
    }
    UnionKept(m, m', a, b, {p});
  }

  lemma InHeap(m: Words, heap: nat, heapSize: nat, offset: nat, p: nat, q: nat)
    requires HeapOk(m, heap, heapSize, offset) && p < q
    ensures heap + heapSize <= |m|
    ensures var live := LiveIn(m, heap, heapSize, offset);
      && (p in live ==> live[p] % 8 == 4 && heap + MARKER <= p && p + live[p] <= heap + heapSize)
      && (q in live ==> live[q] % 8 == 4 && heap + MARKER <= q && q + live[q] <= heap + heapSize)
      && (p in live && q in live ==> p + live[p] + MARKER <= q)
  {
    hide Tiled, HeapBlocks.Live;
    var live := LiveIn(m, heap, heapSize, offset);
    if p in live { LiveBlock(m, heap, heap + offset, p); }
    if q in live { LiveBlock(m, heap, heap + offset, q); }
    if p in live && q in live { LiveApart(m, heap, heap + offset, p, q); }
  }

  lemma NullIsNotLive(m: Words, heap: nat, heapSize: nat, offset: nat)
    requires HeapOk(m, heap, heapSize, offset)
    ensures 0 !in LiveIn(m, heap, heapSize, offset)
  {
    LiveRange(m, heap, heapSize, offset);
  }

  lemma NotEmpty(m: Words, heap: nat, heapSize: nat, offset: nat, p: nat)
    requires HeapOk(m, heap, heapSize, offset) && p in LiveIn(m, heap, heapSize, offset)
    ensures heap + MARKER <= p < heap + heapSize && heapSize > 0 && p + LiveIn(m, heap, heapSize, offset)[p] <= heap + heapSize
  {
    LiveRange(m, heap, heapSize, offset);
  }

  lemma SameLength(m: Words, m': Words, a: nat, b: nat)
    requires ChangedWithin(m, m', a, b)
    ensures |m'| == |m|
  {
  }

  lemma NothingChanged(m: Words, live: map<nat, nat>)
    ensures PayloadsKept(m, m, live, {})
  {
  }

  lemma KeptLater(m0: Words, m: Words, m': Words, live: map<nat, nat>)
    requires |m0| <= |m| <= |m'| && PayloadsKept(m0, m, live, {}) && (m' == m || PayloadsKept(m, m', live, {}))
    ensures PayloadsKept(m0, m', live, {})
  {
  }

  /** A heap that was searched in vain. */
  ghost predicate Passed(m: Words, m': Words, heap: nat, heapSize: nat, n: nat) {
    ChangedWithin(m, m', heap, heap + heapSize)
    && !CanServe(m, heap, heap + heapSize, n) && !CanServe(m', heap, heap + heapSize, n)
  }

  lemma PassedBy(m: Words, m': Words, heap: nat, heapSize: nat, n: nat)
    requires ChangedWithin(m, m', heap, heap + heapSize)
    requires !CanServe(m, heap, heap + heapSize, n) && !CanServe(m', heap, heap + heapSize, n)
    ensures Passed(m, m', heap, heapSize, n)
  {
  }

  /** Whether a heap can serve does not depend on what lies outside it. */
  lemma ServiceFrame(m: Words, m': Words, a: nat, size: nat, heap: nat, heapSize: nat, n: nat)
    requires ChangedWithin(m, m', a, a + size) && (a + size <= heap || heap + heapSize <= a)
    requires heap + heapSize <= |m|
    ensures CanServe(m, heap, heap + heapSize, n) <==> CanServe(m', heap, heap + heapSize, n)
  {
    hide Run;
    var hi := heap + heapSize;
    forall x: nat, y: nat ensures Run(m, heap, hi, x, y) <==> Run(m', heap, hi, x, y) {
      if Run(m, heap, hi, x, y) { RunFrame(m, m', heap, hi, x, y); }
      if Run(m', heap, hi, x, y) { RunFrame(m', m, heap, hi, x, y); }
    }
  }

  lemma SameService(m: Words, m': Words, a: nat, size: nat, heap: nat, heapSize: nat, n: nat)
    requires Passed(m, m', a, size, n) && (a + size <= heap || heap + heapSize <= a)
    requires heap + heapSize <= |m|
    ensures !CanServe(m, a, a + size, n)
    ensures CanServe(m, heap, heap + heapSize, n) <==> CanServe(m', heap, heap + heapSize, n)
  {
    ServiceFrame(m, m', a, size, heap, heapSize, n);
  }

  /** A heap searched in vain cannot serve after the other one has been searched, either. */
  lemma StillPassed(m0: Words, m: Words, m': Words, a: nat, size: nat, heap: nat, heapSize: nat, n: nat)
    requires Passed(m0, m, a, size, n) && ChangedWithin(m, m', heap, heap + heapSize)
    requires (a + size <= heap || heap + heapSize <= a) && a + size <= |m|
    ensures !CanServe(m', a, a + size, n)
  {
    ServiceFrame(m, m', heap, heapSize, a, size, n);
  }

  lemma RunFrame(m: Words, m': Words, lo: nat, hi: nat, x: nat, y: nat)
    requires Run(m, lo, hi, x, y) && |m'| == |m| && hi <= |m| && forall z | lo <= z < hi :: m'[z] == m[z]
    ensures Run(m', lo, hi, x, y)
  {
    hide Tiled, FreeTiled;
    Aligned(m, lo, x);
    FreeIsTiled(m, x, y);
    Aligned(m, y, hi);
    Frame(m, m', lo, x);
    FreeFrame(m, m', x, y);
    Frame(m, m', y, hi);
  }

  /** A heap beside the one that changed keeps its blocks, and has no block there. */
  lemma Beside(m: Words, m': Words, a: nat, size: nat, heap: nat, heapSize: nat, offset: nat, p: nat)
    requires HeapOk(m, heap, heapSize, offset) && ChangedWithin(m, m', a, a + size)
    requires heap == heapSize == offset == 0 || a + size <= heap || heap + heapSize <= a
    ensures HeapOk(m', heap, heapSize, offset)
    ensures var live := LiveIn(m, heap, heapSize, offset);
      LiveIn(m', heap, heapSize, offset) == live && PayloadsKept(m, m', live, {})
      && (a <= p < a + size ==> p !in live)
  {
    hide Tiled, HeapBlocks.Live, PayloadsKept;
    if heapSize == 0 {
      EmptyRange(m, heap);
      EmptyRange(m', heap);
      NothingKept(m, m');
    } else {
      OtherHeap(m, m', a, a + size, heap, heapSize, offset);
      LiveRange(m, heap, heapSize, offset);
    }
  }

  lemma EmptyRange(m: Words, heap: nat)
    requires heap <= |m|
    ensures HeapOk(m, heap, 0, 0) && LiveIn(m, heap, 0, 0) == map[]
  {
  }

  lemma NothingKept(m: Words, m': Words)
    ensures PayloadsKept(m, m', map[], {})
  {
  }

  lemma BlockInHeap(m: Words, heap: nat, heapSize: nat, offset: nat, p: nat)
    requires HeapOk(m, heap, heapSize, offset) && p in LiveIn(m, heap, heapSize, offset)
    ensures heap + MARKER <= p && p + 4 <= heap + heapSize
  {
    LiveRange(m, heap, heapSize, offset);
  }

  lemma SameZeros(m: Words, m': Words, lo: nat, hi: nat)
    requires Zeros(m, lo, hi) && hi <= |m'| && |m| == |m'| && forall x | lo <= x < |m| :: m'[x] == m[x]
    ensures Zeros(m', lo, hi)
  {
  }

  lemma HeapBounds(m: Words, heap: nat, heapSize: nat, offset: nat)
    requires HeapOk(m, heap, heapSize, offset)
    ensures offset <= heapSize && heap + heapSize <= |m|
  {
  }

  lemma EmptyHeap(m: Words)
    ensures HeapOk(m, 0, 0, 0) && LiveIn(m, 0, 0, 0) == map[]
  {
  }

  lemma HeapExtends(m: Words, m': Words, heap: nat, heapSize: nat, offset: nat)
    requires HeapOk(m, heap, heapSize, offset) && Extends(m, m')
    ensures HeapOk(m', heap, heapSize, offset) && heap + heapSize <= |m|
    ensures LiveIn(m', heap, heapSize, offset) == LiveIn(m, heap, heapSize, offset)
  {
    HeapFrame(m, m', heap, heapSize, offset);
  }

  lemma KeptExtended(m0: Words, m: Words, m': Words, live: map<nat, nat>)
    requires Extends(m0, m) && (m' == m || PayloadsKept(m, m', live, {}))
    ensures PayloadsKept(m0, m', live, {})
  {
  }

  // ----- Two programs -----

  method TwoBlocksOneFreed(manager: MemoryManager) returns (a: nat)
    requires manager.Valid() && manager.Fresh() && manager.Live() == map[]
    modifies manager, manager.w, manager.heaps
    ensures manager.Valid() && manager.SecondFreed() && a == manager.initialHeap + MARKER
  {
    hide Tiled, HeapBlocks.Live, HeapOk, LiveIn, PayloadsKept, Refused, CanServe, Obtainable, Obtained;
    ObtainedAtOnce(manager.w.host, manager.CurrentTop(), 4);
    a := manager.Malloc(4);
    ObtainedAtOnce(manager.w.host, manager.CurrentTop(), 4);
    var b := manager.Malloc(4);
    manager.Free(b);
    assert manager.Live() == map[a := 4];
  }

  /** Allocate two blocks, free the second and grow the first: nothing is exhausted, every call
      is in order, and the allocator is no longer consistent. */
  method LeavesUsedRun(manager: MemoryManager) returns (r: nat)
    requires manager.Valid() && manager.Fresh() && manager.Live() == map[]
    modifies manager, manager.w, manager.heaps
    ensures !manager.Valid()
  {
    hide Tiled, HeapBlocks.Live, HeapOk, LiveIn, PayloadsKept, Refused, Wraps, LeavesUsed;
    var a := TwoBlocksOneFreed(manager);
    manager.SecondFreedUnsafe();
    r := manager.Realloc(a, 20);
  }

  /** Allocate a block and ask for more than the address at which the heap ends. */
  method WrapsRun(manager: MemoryManager) returns (r: nat)
    requires manager.Valid() && manager.Fresh() && manager.Live() == map[]
    modifies manager, manager.w, manager.heaps
    ensures !manager.Valid()
  {
    hide Tiled, HeapBlocks.Live, HeapOk, LiveIn, PayloadsKept, LeavesUsed, CanServe, Obtainable, Obtained;
    ObtainedAtOnce(manager.w.host, manager.CurrentTop(), 4);
    var a := manager.Malloc(4);
    var size := manager.initialHeap + INITIAL_HEAP_SIZE + 1;
    AdjustedIsLeast(size);
    EmptyHeap(manager.w.m);
    assert manager.heaps[0].Blocks() == manager.Live();
    r := manager.Realloc(a, size);
  }
}
