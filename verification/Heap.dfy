/** One heap of the allocator: a stretch of linear memory of which the part up to `offset` is
    divided into blocks. */
module Heap {
  import opened HeapBlocks
  import opened LinearMemory

  /** The largest block size below 2^31. */
  const MAX_SIZE: nat := 0x7fff_fffc

  /** The used part is tiled, the rest was never touched. */
  ghost predicate HeapOk(m: Words, heap: nat, heapSize: nat, offset: nat) {
    && offset <= heapSize && heap + heapSize <= |m| && heapSize % 8 == 0
    && Tiled(m, heap, heap + offset) && Zeros(m, heap + offset, heap + heapSize)
  }

  ghost function LiveIn(m: Words, heap: nat, heapSize: nat, offset: nat): map<nat, nat>
    requires HeapOk(m, heap, heapSize, offset)
  {
    Live(m, heap, heap + offset)
  }

  lemma HeapFrame(m: Words, m': Words, heap: nat, heapSize: nat, offset: nat)
    requires HeapOk(m, heap, heapSize, offset) && |m| <= |m'|
    requires forall x | heap <= x < heap + heapSize :: m'[x] == m[x]
    ensures HeapOk(m', heap, heapSize, offset)
    ensures LiveIn(m', heap, heapSize, offset) == LiveIn(m, heap, heapSize, offset)
  {
    hide Tiled, Live;
    Frame(m, m', heap, heap + offset);
  }

  // ----- What the operations do to memory -----

  /** A block behind the last one, at the top of the used part. */
  lemma Append(m: Words, m': Words, heap: nat, heapSize: nat, offset: nat, n: nat)
    requires HeapOk(m, heap, heapSize, offset) && n % 8 == 4 && offset + n + MARKER <= heapSize
    requires ChangedWithin(m, m', heap + offset, heap + offset + 1) && Size(m'[heap + offset]) == n
    ensures HeapOk(m', heap, heapSize, offset + n + MARKER)
    ensures LiveIn(m', heap, heapSize, offset + n + MARKER)
         == LiveIn(m, heap, heapSize, offset) + LiveFirst(m', heap + offset)
    ensures heap + offset + MARKER !in LiveIn(m, heap, heapSize, offset)
    ensures PayloadsKept(m, m', LiveIn(m, heap, heapSize, offset), {})
  {
    hide Tiled, Live;
    var top := heap + offset;
    Frame(m, m', heap, top);
    OneBlock(m', top);
    Concat(m', heap, top, End(m', top));
    var live := LiveIn(m, heap, heapSize, offset);
    forall p | p in live ensures p + live[p] <= top { LiveBlock(m, heap, top, p); }
  }

  /** The block of a live payload, and the chain around it. */
  lemma LivePlace(m: Words, heap: nat, heapSize: nat, offset: nat, p: nat)
    requires HeapOk(m, heap, heapSize, offset) && p in LiveIn(m, heap, heapSize, offset)
    ensures var n := LiveIn(m, heap, heapSize, offset)[p];
      && heap + MARKER <= p < |m| && p + n <= heap + offset && n % 8 == 4
      && m[p - MARKER] == ALLOC + n && End(m, p - MARKER) == p + n
      && Tiled(m, heap, p - MARKER) && Tiled(m, p - MARKER, p + n) && Tiled(m, p + n, heap + offset)
      && Live(m, p - MARKER, p + n) == map[p := n]
  {
    hide Tiled, Live;
    LiveBlock(m, heap, heap + offset, p);
    OneBlock(m, p - MARKER);
  }

  lemma FreeBlock(m: Words, m': Words, heap: nat, heapSize: nat, offset: nat, p: nat)
    requires HeapOk(m, heap, heapSize, offset) && p in LiveIn(m, heap, heapSize, offset)
    requires p >= MARKER && p - MARKER < |m| && m' == m[p - MARKER := Size(m[p - MARKER])]
    ensures HeapOk(m', heap, heapSize, offset)
    ensures LiveIn(m', heap, heapSize, offset) == LiveIn(m, heap, heapSize, offset) - {p}
    ensures PayloadsKept(m, m', LiveIn(m, heap, heapSize, offset), {})
    ensures ChangedWithin(m, m', heap, heap + heapSize)
  {
    hide Tiled, Live;
    LivePlace(m, heap, heapSize, offset, p);
    var n := LiveIn(m, heap, heapSize, offset)[p];
    OneBlock(m', p - MARKER);
    Releases(m, m', heap, p - MARKER, p + n, heap + offset, p);
    HeaderUntouched(m, m', heap, heap + offset, p);
  }

  /** No payload contains a header. */
  lemma HeaderUntouched(m: Words, m': Words, lo: nat, hi: nat, p: nat)
    requires Tiled(m, lo, hi) && p in Live(m, lo, hi) && |m'| == |m|
    requires forall x | 0 <= x < |m| && x + MARKER != p :: m'[x] == m[x]
    ensures PayloadsKept(m, m', Live(m, lo, hi), {})
  {
    hide Tiled, Live;
    forall q, x | q in Live(m, lo, hi) && q <= x < q + Live(m, lo, hi)[q] && x < |m| ensures m'[x] == m[x] {
      LiveBlock(m, lo, hi, p);
      LiveBlock(m, lo, hi, q);
      HeaderApart(m, lo, hi, q, p - MARKER);
    }
  }

  /** Writing inside one payload leaves the chain as it is. So does shrinking: it writes behind
      the kept part, but inside the payload, and the header of the block keeps its size. */
  lemma WritePayload(m: Words, m': Words, heap: nat, heapSize: nat, offset: nat, p: nat)
    requires HeapOk(m, heap, heapSize, offset) && p in LiveIn(m, heap, heapSize, offset)
    requires ChangedWithin(m, m', p, p + LiveIn(m, heap, heapSize, offset)[p])
    ensures HeapOk(m', heap, heapSize, offset)
    ensures LiveIn(m', heap, heapSize, offset) == LiveIn(m, heap, heapSize, offset)
    ensures PayloadsKept(m, m', LiveIn(m, heap, heapSize, offset), {p})
    ensures ChangedWithin(m, m', heap, heap + heapSize)
  {
    hide Tiled, Live;
    LivePlace(m, heap, heapSize, offset, p);
    var live := LiveIn(m, heap, heapSize, offset);
    OneBlock(m', p - MARKER);
    Resizes(m, m', heap, p - MARKER, p + live[p], heap + offset, p, live[p]);
  }

  /** The last block grows into untouched memory. */
  lemma ExtendLast(m: Words, m': Words, heap: nat, heapSize: nat, offset: nat, p: nat, n: nat)
    requires HeapOk(m, heap, heapSize, offset) && p in LiveIn(m, heap, heapSize, offset)
    requires p + LiveIn(m, heap, heapSize, offset)[p] == heap + offset
    requires n % 8 == 4 && p + n <= heap + heapSize && n >= LiveIn(m, heap, heapSize, offset)[p]
    requires p >= MARKER && p - MARKER < |m| && m' == m[p - MARKER := n + ALLOC]
    ensures HeapOk(m', heap, heapSize, p + n - heap)
    ensures LiveIn(m', heap, heapSize, p + n - heap) == LiveIn(m, heap, heapSize, offset)[p := n]
    ensures PayloadsKept(m, m', LiveIn(m, heap, heapSize, offset), {})
    ensures ChangedWithin(m, m', heap, heap + heapSize)
  {
    hide Tiled, Live;
    LivePlace(m, heap, heapSize, offset, p);
    var a, live := p - MARKER, LiveIn(m, heap, heapSize, offset);
    Concat(m, heap, a, heap + offset);
    Frame(m, m', heap, a);
    OneBlock(m', a);
    Concat(m', heap, a, p + n);
    HeaderUntouched(m, m', heap, heap + offset, p);
  }

  /** A stretch a..e that consists of one block and free ones. */
  lemma FirstAndFree(m: Words, a: nat, e: nat)
    requires a < |m| && Size(m[a]) % 8 == 4 && FreeTiled(m, End(m, a), e)
    ensures Tiled(m, a, e) && Live(m, a, e) == LiveFirst(m, a) && (e - a) % 8 == 0 && End(m, a) <= e <= |m|
    ensures !IsAlloc(m[a]) ==> FreeTiled(m, a, e)
  {
    FreeIsTiled(m, End(m, a), e);
    Aligned(m, End(m, a), e);
    OneBlock(m, a);
    Concat(m, a, End(m, a), e);
  }

  /** What merging a..e leaves there: one block, with the state of the first, and nothing or
      one free block behind it. */
  lemma MergedTiling(m: Words, a: nat, e: nat, needed: nat)
    requires a < |m| && Size(m[a]) % 8 == 4 && FreeTiled(m, End(m, a), e) && needed % 8 == 4
    ensures a + 2 * MARKER <= e <= |m| && (a + MARKER + needed < e ==> a + needed + 2 * MARKER <= e)
    ensures var m' := Merged(m, a, e, needed);
      var n := if e - a - MARKER <= needed then e - a - MARKER else needed;
      && Tiled(m', a, e) && m'[a] == WithState(m[a], n) && Live(m', a, e) == LiveFirst(m', a)
      && ChangedWithin(m, m', a, e) && (forall x | a + MARKER <= x < a + MARKER + n :: m'[x] == m[x])
      && (e - a - MARKER <= needed ==> End(m', a) == e)
  {
    hide Tiled, Live, FreeTiled;
    FirstAndFree(m, a, e);
    var n := if e - a - MARKER <= needed then e - a - MARKER else needed;
    Divided(Merged(m, a, e, needed), a, e, n);
  }

  /** A block grows over the free blocks behind it. */
  lemma Grow(m: Words, m': Words, heap: nat, heapSize: nat, offset: nat, p: nat, n: nat, e: nat)
    requires HeapOk(m, heap, heapSize, offset) && p in LiveIn(m, heap, heapSize, offset)
    requires n % 8 == 4 && n >= LiveIn(m, heap, heapSize, offset)[p]
    requires p + n <= e && e <= |m|
    requires FreeTiled(m, p + LiveIn(m, heap, heapSize, offset)[p], e) && Tiled(m, e, heap + offset)
    requires p >= MARKER && (p + n < e ==> p + n + MARKER <= e) && m' == Merged(m, p - MARKER, e, n)
    ensures HeapOk(m', heap, heapSize, offset)
    ensures LiveIn(m', heap, heapSize, offset) == LiveIn(m, heap, heapSize, offset)[p := n]
    ensures PayloadsKept(m, m', LiveIn(m, heap, heapSize, offset), {})
    ensures ChangedWithin(m, m', heap, heap + heapSize) && m'[p - MARKER] == ALLOC + n
  {
    hide Tiled, Live, FreeTiled, Merged;
    LivePlace(m, heap, heapSize, offset, p);
    var a, live := p - MARKER, LiveIn(m, heap, heapSize, offset);
    FirstAndFree(m, a, e);
    MergedTiling(m, a, e, n);
    Aligned(m, e, heap + offset);
    Resizes(m, m', heap, a, e, heap + offset, p, n);
    forall q, x | q in live && q <= x < q + live[q] && x < |m| ensures m'[x] == m[x] {
      if q == p { assert x < p + n; }
    }
  }

  /** The block is the last one and the request larger than the address at which the heap ends:
      then `end_of_buffer - size` wraps around and the size check passes. */
  ghost predicate Wraps(m: Words, heap: nat, heapSize: nat, offset: nat, p: nat, n: nat)
    requires HeapOk(m, heap, heapSize, offset) && p in LiveIn(m, heap, heapSize, offset)
  {
    n > heap + heapSize && p + LiveIn(m, heap, heapSize, offset)[p] == heap + offset
  }

  /** Growing over free blocks, the walk leaves the used part of the heap. */
  ghost predicate LeavesUsed(m: Words, heap: nat, heapSize: nat, offset: nat, p: nat, n: nat)
    requires HeapOk(m, heap, heapSize, offset) && p in LiveIn(m, heap, heapSize, offset)
  {
    var after := p + LiveIn(m, heap, heapSize, offset)[p];
    p + n <= heap + heapSize && after < heap + offset && Overruns(m, after, heap + offset, heap + heapSize, p + n)
  }

  /** The block can have the size where it stands. */
  ghost predicate FitsInPlace(m: Words, heap: nat, heapSize: nat, offset: nat, p: nat, n: nat)
    requires HeapOk(m, heap, heapSize, offset) && p in LiveIn(m, heap, heapSize, offset)
  {
    var after := p + LiveIn(m, heap, heapSize, offset)[p];
    p + n <= heap + heapSize &&
    (p + n <= after || after == heap + offset || Stop(m, after, heap + heapSize, p + n) >= p + n)
  }

  /** Leaving the used part, the walk takes untouched words for free blocks, the grown block
      straddles the top of the used part, and the next block from there begins inside it. */
  lemma LeavingBreaks(m: Words, heap: nat, heapSize: nat, offset: nat, p: nat, n: nat)
    requires HeapOk(m, heap, heapSize, offset) && p in LiveIn(m, heap, heapSize, offset)
    requires LeavesUsed(m, heap, heapSize, offset, p, n) && n % 8 == 4
    ensures var after := p + LiveIn(m, heap, heapSize, offset)[p];
      Stop(m, after, heap + heapSize, p + n) == p + n
    ensures p >= MARKER && n < ALLOC && p - MARKER < |m|
    ensures !HeapOk(m[p - MARKER := n + ALLOC], heap, heapSize, offset)
    ensures p < heap + offset + MARKER < p + n
  {
    hide Tiled, Live, FreeTiled, Stop;
    LivePlace(m, heap, heapSize, offset, p);
    var a, after, top := p - MARKER, p + LiveIn(m, heap, heapSize, offset)[p], heap + offset;
    FreeIsTiled(m, after, top);
    Aligned(m, after, top);
    SizesStep(p, after - p, top, n);
    StopOverruns(m, after, top, heap + heapSize, p + n);
    hide Overruns;
    Straddles(m, m[a := n + ALLOC], heap, a, top);
  }

  lemma SizesStep(p: nat, orig: nat, top: nat, n: nat)
    requires orig % 8 == 4 && n % 8 == 4 && top >= p + orig && (top - (p + orig)) % 8 == 0 && top < p + n
    ensures top + 8 <= p + n && ((p + n) - (p + orig)) % 4 == 0
  {
    var a, b, c := orig / 8, n / 8, (top - (p + orig)) / 8;
    assert orig == 8 * a + 4 && n == 8 * b + 4 && top == p + orig + 8 * c;
    assert (p + n) - top == 8 * (b - a - c);
    Fours(b - a);
  }

  lemma Fours(k: int)
    ensures 8 * k % 4 == 0
  {
  }

  /** No chain ends inside a block. */
  lemma Straddles(m: Words, m': Words, lo: nat, a: nat, top: nat)
    requires Tiled(m, lo, a) && a < top < |m'| && End(m', a) > top
    requires |m'| == |m| && forall x | lo <= x < a :: m'[x] == m[x]
    ensures !Tiled(m', lo, top)
  {
    hide Tiled, Live;
    Frame(m, m', lo, a);
    if Tiled(m', lo, top) { Split(m', lo, a, top); }
  }

  /** Otherwise the walk stops on the chain. */
  lemma StaysInside(m: Words, heap: nat, heapSize: nat, offset: nat, p: nat, n: nat)
    requires HeapOk(m, heap, heapSize, offset) && p in LiveIn(m, heap, heapSize, offset)
    requires p + n <= heap + heapSize && n % 8 == 4 && n > LiveIn(m, heap, heapSize, offset)[p]
    requires p + LiveIn(m, heap, heapSize, offset)[p] < heap + offset && !LeavesUsed(m, heap, heapSize, offset, p, n)
    ensures var after := p + LiveIn(m, heap, heapSize, offset)[p];
      var e := Stop(m, after, heap + heapSize, p + n);
      && e <= heap + offset && FreeTiled(m, after, e) && Tiled(m, e, heap + offset) && p >= MARKER
      && e <= |m| && (e > p + n ==> e >= p + n + MARKER)
  {
    hide Tiled, Live, FreeTiled, Stop;
    LivePlace(m, heap, heapSize, offset, p);
    var after := p + LiveIn(m, heap, heapSize, offset)[p];
    StopOnChain(m, after, heap + offset, heap + heapSize, p + n);
    FreeIsTiled(m, after, Stop(m, after, heap + heapSize, p + n));
    Aligned(m, after, Stop(m, after, heap + heapSize, p + n));
  }

  /** Subtraction of 32-bit addresses. */
  function Minus(a: nat, b: nat): nat { (a - b) % 0x1_0000_0000 }

  /** The guards of a reallocation in place, case by case. */
  lemma InPlaceCases(m: Words, heap: nat, heapSize: nat, offset: nat, p: nat, n: nat)
    requires HeapOk(m, heap, heapSize, offset) && p in LiveIn(m, heap, heapSize, offset) && n % 8 == 4
    ensures offset <= heapSize && heap + heapSize <= |m|
    ensures var orig, end := LiveIn(m, heap, heapSize, offset)[p], heap + heapSize;
      var last := p + orig == heap + offset;
      var fits := FitsInPlace(m, heap, heapSize, offset, p, n);
      var wraps, leaves := Wraps(m, heap, heapSize, offset, p, n), LeavesUsed(m, heap, heapSize, offset, p, n);
      && heap + MARKER <= p && p + orig <= heap + offset && orig % 8 == 4 && Size(m[p - MARKER]) == orig && End(m, p - MARKER) == p + orig
      && (fits ==> p + n <= end)
      && (n <= MAX_SIZE ==> (p > Minus(end, n) <==> p + n > end && n <= end))
      && (n <= orig ==> fits && !wraps && !leaves)
      && (n > orig && last ==> (fits <==> p + n <= end) && (wraps <==> n > end) && !leaves)
      && (n > orig && !last ==> !wraps && (leaves ==> p + n <= end))
      && (n > orig && !last ==> (fits <==> p + n <= end && Stop(m, p + orig, end, p + n) >= p + n))
  {
    hide Tiled, Live, FreeTiled, Stop, Overruns;
    LivePlace(m, heap, heapSize, offset, p);
    var after := p + LiveIn(m, heap, heapSize, offset)[p];
    if n <= after - p { FreeIsShort(m, after, heap + offset); }
  }

  lemma FreeIsShort(m: Words, lo: nat, hi: nat)
    requires Tiled(m, lo, hi)
    ensures forall heapEnd, limit: nat | limit <= lo :: !Overruns(m, lo, hi, heapEnd, limit)
  {
    Aligned(m, lo, hi);
  }

  /** In a heap that is divided to its end no walk leaves the used part. */
  lemma FullHeapIsSafe(m: Words, heap: nat, heapSize: nat, p: nat, n: nat)
    requires HeapOk(m, heap, heapSize, heapSize) && p in LiveIn(m, heap, heapSize, heapSize)
    ensures !LeavesUsed(m, heap, heapSize, heapSize, p, n)
  {
  }

  /** A live block of 4 bytes and a freed one behind it, at the start of an untouched heap. */
  ghost function TwoBlocks(): Words { seq(72, i => if i == 8 then ALLOC + 4 else if i == 16 then 4 else 0) }

  lemma TwoBlocksOk()
    ensures HeapOk(TwoBlocks(), 8, 64, 16) && LiveIn(TwoBlocks(), 8, 64, 16) == map[12 := 4]
    ensures FreeTiled(TwoBlocks(), 16, 24)
  {
    var m := TwoBlocks();
    assert Tiled(m, 24, 24) && Tiled(m, 16, 24) && Tiled(m, 8, 24);
    assert FreeTiled(m, 24, 24);
    assert Live(m, 16, 24) == map[];
  }

  /** A program that frees its second block and then grows the first one to 20 bytes leaves the
      used part, with no lack of memory: the condition above is needed. */
  lemma LeavesUsedExample()
    ensures HeapOk(TwoBlocks(), 8, 64, 16) && 12 in LiveIn(TwoBlocks(), 8, 64, 16)
    ensures LeavesUsed(TwoBlocks(), 8, 64, 16, 12, 20)
    ensures !HeapOk(TwoBlocks()[8 := ALLOC + 20], 8, 64, 16)
  {
    hide Tiled, FreeTiled, Live;
    TwoBlocksOk();
    LeavingBreaks(TwoBlocks(), 8, 64, 16, 12, 20);
  }

  /** A single live block at the start of an untouched heap. */
  ghost function OneLive(): Words { seq(72, i => if i == 8 then ALLOC + 4 else 0) }

  /** Asking for more than the address at which the heap ends passes the size check. */
  lemma WrapsExample()
    ensures HeapOk(OneLive(), 8, 64, 8) && 12 in LiveIn(OneLive(), 8, 64, 8)
    ensures Wraps(OneLive(), 8, 64, 8, 12, 76)
  {
    var m := OneLive();
    assert Tiled(m, 16, 16) && Tiled(m, 8, 16);
    assert Live(m, 16, 16) == map[];
    assert Live(m, 8, 16) == map[12 := 4];
  }

  /** Two blocks of 4 bytes at the start of a heap, the second one freed: growing the first to 20
      bytes leaves the used part. */
  lemma SecondFreed(m: Words, heap: nat, heapSize: nat)
    requires HeapOk(m, heap, heapSize, 16) && heapSize >= 32
    requires LiveIn(m, heap, heapSize, 16) == map[heap + MARKER := 4]
    ensures LeavesUsed(m, heap, heapSize, 16, heap + MARKER, 20)
  {
    LivePlace(m, heap, heapSize, 16, heap + MARKER);
    hide Live, LiveIn, HeapOk;
    SecondIsFree(m, heap);
  }

  lemma SecondIsFree(m: Words, heap: nat)
    requires Tiled(m, heap, heap + 8) && Tiled(m, heap + 8, heap + 16)
    requires Live(m, heap, heap + 8) == map[heap + MARKER := 4]
    requires Tiled(m, heap, heap + 16) ==> Live(m, heap, heap + 16) == map[heap + MARKER := 4]
    ensures FreeTiled(m, heap + 8, heap + 16)
  {
    Concat(m, heap, heap + 8, heap + 16);
    Aligned(m, End(m, heap + 8), heap + 16);
    FirstInLive(m, heap + 8, heap + 16);
    assert FreeTiled(m, heap + 16, heap + 16);
  }

  lemma FirstInLive(m: Words, a: nat, hi: nat)
    requires Tiled(m, a, hi) && a < hi
    ensures IsAlloc(m[a]) ==> a + MARKER in Live(m, a, hi)
  {
  }

  ghost predicate Grows(m: Words, heap: nat, heapSize: nat, offset: nat, p: nat, n: nat) {
    && HeapOk(m, heap, heapSize, offset) && p in LiveIn(m, heap, heapSize, offset)
    && n % 8 == 4 && n <= MAX_SIZE && n > LiveIn(m, heap, heapSize, offset)[p]
    && p + LiveIn(m, heap, heapSize, offset)[p] < heap + offset
  }

  /** What the walk needs; for the growing branch of a reallocation. */
  lemma GrowSetup(m: Words, heap: nat, heapSize: nat, offset: nat, p: nat, n: nat)
    requires Grows(m, heap, heapSize, offset, p, n)
    ensures var after := p + LiveIn(m, heap, heapSize, offset)[p];
      p + n <= heap + heapSize ==>
      var e := Stop(m, after, heap + heapSize, p + n);
      && p <= e <= heap + heapSize && (e > p + n ==> e >= p + n + MARKER)
      && (LeavesUsed(m, heap, heapSize, offset, p, n) ==> e == p + n)
  {
    hide Tiled, Live, FreeTiled, Stop, Overruns;
    if p + n <= heap + heapSize {
      if LeavesUsed(m, heap, heapSize, offset, p, n) {
        LeavingBreaks(m, heap, heapSize, offset, p, n);
      } else {
        StaysInside(m, heap, heapSize, offset, p, n);
      }
    }
  }

  /** The outcome of the growing branch when the walk suffices. */
  lemma GrowStep(m: Words, m': Words, heap: nat, heapSize: nat, offset: nat, p: nat, n: nat)
    requires Grows(m, heap, heapSize, offset, p, n) && p >= MARKER && p + n <= heap + heapSize
    requires var e := Stop(m, p + LiveIn(m, heap, heapSize, offset)[p], heap + heapSize, p + n);
      && p + n <= e <= |m| && (e > p + n ==> e >= p + n + MARKER) && n < ALLOC
      && m' == Merged(m, p - MARKER, e, n)[p - MARKER := n + ALLOC]
    ensures HeapOk(m', heap, heapSize, offset) <==> !LeavesUsed(m, heap, heapSize, offset, p, n)
    ensures HeapOk(m', heap, heapSize, offset) ==>
      && LiveIn(m', heap, heapSize, offset) == LiveIn(m, heap, heapSize, offset)[p := n]
      && PayloadsKept(m, m', LiveIn(m, heap, heapSize, offset), {})
    ensures ChangedWithin(m, m', heap, heap + heapSize)
  {
    hide Tiled, Live, FreeTiled, Stop, Overruns;
    LivePlace(m, heap, heapSize, offset, p);
    var e := Stop(m, p + LiveIn(m, heap, heapSize, offset)[p], heap + heapSize, p + n);
    if LeavesUsed(m, heap, heapSize, offset, p, n) {
      LeavingBreaks(m, heap, heapSize, offset, p, n);
      assert m' == m[p - MARKER := n + ALLOC];
    } else {
      StaysInside(m, heap, heapSize, offset, p, n);
      var merged := Merged(m, p - MARKER, e, n);
      Grow(m, merged, heap, heapSize, offset, p, n, e);
      assert m' == merged;
    }
  }

  // ----- First fit among the freed blocks -----

  /** How far the search has come: runs from before `cur` cannot serve, then and now, memory from `cur` on is as
      it was, and what was merged on the way changes no payload. */
  ghost predicate Searched(m0: Words, m: Words, lo: nat, hi: nat, cur: nat, size: nat) {
    && Tiled(m0, lo, hi) && Tiled(m, lo, hi) && Live(m, lo, hi) == Live(m0, lo, hi)
    && ChangedWithin(m0, m, lo, hi) && PayloadsKept(m0, m, Live(m0, lo, hi), {})
    && lo <= cur <= hi && Tiled(m0, lo, cur) && Tiled(m, lo, cur) && (forall x | cur <= x < |m| :: m[x] == m0[x])
    && TooSmallBefore(m0, lo, hi, cur, size) && TooSmallBefore(m, lo, hi, cur, size)
  }

  lemma SearchStarts(m: Words, lo: nat, hi: nat, size: nat)
    requires Tiled(m, lo, hi)
    ensures Searched(m, m, lo, hi, lo, size)
  {
    Aligned(m, lo, hi);
    forall x: nat, y: nat | Run(m, lo, hi, x, y) ensures x >= lo { Aligned(m, lo, x); }
  }

  lemma SearchEnds(m0: Words, m: Words, lo: nat, hi: nat, size: nat)
    requires Searched(m0, m, lo, hi, hi, size)
    ensures !CanServe(m0, lo, hi, size) && !CanServe(m, lo, hi, size)
    ensures Tiled(m0, lo, hi) && Tiled(m, lo, hi) && Live(m, lo, hi) == Live(m0, lo, hi)
    ensures ChangedWithin(m0, m, lo, hi) && PayloadsKept(m0, m, Live(m0, lo, hi), {})
  {
    hide Live, FreeTiled, Run;
    forall x: nat, y: nat | Run(m0, lo, hi, x, y) ensures y - x - MARKER < size { RunWithin(m0, lo, hi, x, y); }
    forall x: nat, y: nat | Run(m, lo, hi, x, y) ensures y - x - MARKER < size { RunWithin(m, lo, hi, x, y); }
  }

  lemma RunWithin(m: Words, lo: nat, hi: nat, x: nat, y: nat)
    requires Run(m, lo, hi, x, y)
    ensures x < y <= hi
  {
    Aligned(m, y, hi);
  }

  /** The chains from the current block on. */
  lemma SearchedAt(m0: Words, m: Words, lo: nat, hi: nat, cur: nat, size: nat)
    requires Searched(m0, m, lo, hi, cur, size) && cur < hi
    ensures hi <= |m| && cur + 2 * MARKER <= hi && Size(m[cur]) % 8 == 4 && End(m, cur) == End(m0, cur) <= hi
    ensures End(m, cur) == hi || End(m, cur) + 2 * MARKER <= hi
    ensures Tiled(m0, cur, hi) && Tiled(m, cur, hi) && Tiled(m0, End(m, cur), hi) && Tiled(m, End(m, cur), hi)
    ensures Tiled(m0, lo, End(m, cur)) && Tiled(m, lo, End(m, cur))
  {
    Split(m0, lo, cur, hi);
    Split(m, lo, cur, hi);
  }

  lemma SearchSkips(m0: Words, m: Words, lo: nat, hi: nat, cur: nat, size: nat)
    requires Searched(m0, m, lo, hi, cur, size) && cur < hi <= |m| && IsAlloc(m[cur])
    ensures Searched(m0, m, lo, hi, End(m, cur), size)
  {
    SearchedAt(m0, m, lo, hi, cur, size);
    SkipAllocated(m0, lo, hi, cur, size);
    SkipAllocated(m, lo, hi, cur, size);
    hide Tiled, Live, TooSmallBefore;
  }

  /** Where the walk from the current free block stops. */
  lemma WalkStops(m0: Words, m: Words, lo: nat, hi: nat, cur: nat, size: nat)
    requires Searched(m0, m, lo, hi, cur, size) && cur < hi <= |m| && !IsAlloc(m[cur]) && size % 8 == 4
    ensures var e := Stop(m, End(m, cur), hi, cur + MARKER + size);
      && cur + 2 * MARKER <= e <= hi && (e > cur + MARKER + size ==> e >= cur + size + 2 * MARKER)
      && Size(m[cur]) % 8 == 4 && FreeTiled(m, End(m, cur), e) && Tiled(m, e, hi)
      && FreeTiled(m0, cur, e) && Tiled(m0, cur, e) && Tiled(m0, e, hi)
      && Tiled(m, cur, e) && FreeTiled(m, cur, e) && Live(m, cur, e) == map[]
      && (e >= cur + MARKER + size || e == hi || (e < hi && IsAlloc(m0[e])))
  {
    hide Tiled, Live, FreeTiled, Stop, TooSmallBefore;
    SearchedAt(m0, m, lo, hi, cur, size);
    var e := Stop(m, End(m, cur), hi, cur + MARKER + size);
    WalkOnChain(m, End(m, cur), hi, cur + MARKER + size);
    FirstAndFree(m, cur, e);
    FreeFrame(m, m0, cur, e);
    Frame(m, m0, cur, e);
    Frame(m, m0, e, hi);
  }

  lemma WalkOnChain(m: Words, pos: nat, hi: nat, limit: nat)
    requires Tiled(m, pos, hi)
    ensures hi <= |m|
    ensures var e := Stop(m, pos, hi, limit);
      && pos <= e <= hi && FreeTiled(m, pos, e) && Tiled(m, e, hi)
      && (e >= limit || e == hi || (e < hi && IsAlloc(m[e])))
  {
    Aligned(m, pos, hi);
    StopOnChain(m, pos, hi, hi, limit);
  }

  lemma KeptTwice(m0: Words, m: Words, m': Words, live: map<nat, nat>)
    requires |m0| == |m| == |m'| && PayloadsKept(m0, m, live, {}) && PayloadsKept(m, m', live, {})
    ensures PayloadsKept(m0, m', live, {})
  {
  }

  /** A run that is too small is merged into one free block and passed over. */
  lemma SearchMerges(m0: Words, m: Words, lo: nat, hi: nat, cur: nat, size: nat, e: nat)
    requires Searched(m0, m, lo, hi, cur, size) && cur < hi <= |m| && !IsAlloc(m[cur]) && size % 8 == 4
    requires e == Stop(m, End(m, cur), hi, cur + MARKER + size) < cur + MARKER + size
    requires cur + MARKER <= e <= |m|
    ensures var m' := Merged(m, cur, e, size);
      Searched(m0, m', lo, hi, e, size) && End(m', cur) == e
  {
    hide Tiled, Live, FreeTiled, Stop, TooSmallBefore, Merged;
    WalkStops(m0, m, lo, hi, cur, size);
    MergedTiling(m, cur, e, size);
    var m' := Merged(m, cur, e, size);
    Rearranges(m, m', lo, cur, e, hi);
    KeptTwice(m0, m, m', Live(m0, lo, hi));
    SkipFree(m0, lo, hi, cur, e, size);
    Frame(m, m', lo, cur);
    Concat(m', lo, cur, e);
    Concat(m0, lo, cur, e);
    MergedTooSmall(m, m', lo, hi, cur, e, size);
    SkipFree(m', lo, hi, cur, e, size);
  }

  /** A run that suffices is taken. */
  lemma SearchTakes(m0: Words, m: Words, m': Words, lo: nat, hi: nat, cur: nat, size: nat, e: nat)
    requires Searched(m0, m, lo, hi, cur, size) && cur < hi <= |m| && !IsAlloc(m[cur]) && size % 8 == 4
    requires e == Stop(m, End(m, cur), hi, cur + MARKER + size) >= cur + MARKER + size
    requires e <= hi && (e > cur + MARKER + size ==> e >= cur + size + 2 * MARKER)
    requires m' == Merged(m, cur, e, size)[cur := size + ALLOC]
    ensures Tiled(m', lo, hi) && Live(m', lo, hi) == Live(m0, lo, hi)[cur + MARKER := size]
    ensures cur + MARKER !in Live(m0, lo, hi) && CanServe(m0, lo, hi, size)
    ensures PayloadsKept(m0, m', Live(m0, lo, hi), {}) && ChangedWithin(m0, m', lo, hi)
    ensures Run(m0, lo, hi, cur, e) && TooSmallBefore(m0, lo, hi, cur, size)
  {
    hide Tiled, Live, FreeTiled, Stop, TooSmallBefore;
    WalkStops(m0, m, lo, hi, cur, size);
    Aligned(m, cur, e);
    Divided(m', cur, e, size);
    assert Run(m0, lo, hi, cur, e);
    Allocates(m, m', lo, cur, e, hi, cur + MARKER, size);
    KeptTwice(m0, m, m', Live(m0, lo, hi));
  }

  // ----- The heap object -----

  /** One word is written, and nothing else. */
  ghost predicate Stored(m: Words, m': Words, a: int, value: int) {
    0 <= a < |m| && 0 <= value < 0x1_0000_0000 && m' == m[a := value]
  }

  class Memory {
    const w: Wasm
    var heap: nat
    var heapSize: nat
    var offset: nat

    constructor (w: Wasm)
      ensures this.w == w && heap == heapSize == offset == 0
    {
      this.w := w;
      heap, heapSize, offset := 0, 0, 0;
    }

    ghost predicate Ok()
      reads this, w
    {
      HeapOk(w.m, heap, heapSize, offset)
    }

    /** The live blocks of this heap. */
    ghost function Blocks(): map<nat, nat>
      reads this, w
      requires Ok()
    {
      LiveIn(w.m, heap, heapSize, offset)
    }

    method Init(heap: nat, heapSize: nat)
      requires heapSize % 8 == 0 && heap + heapSize <= |w.m| && Zeros(w.m, heap, heap + heapSize) && offset == 0
      modifies this`heap, this`heapSize
      ensures this.heap == heap && this.heapSize == heapSize && Ok() && Blocks() == map[]
    {
      this.heap, this.heapSize := heap, heapSize;
    }

    function IsInit(): bool
      reads this
    {
      heap != 0
    }

    function IsInHeap(ptr: nat): bool
      reads this
    {
      heap + MARKER <= ptr < heap + heapSize
    }

    /** Takes the next bytes of the untouched part; 0 exactly when they do not suffice. */
    method Malloc(size: nat) returns (p: nat)
      requires Ok() && size % 8 == 4 && size <= MAX_SIZE
      modifies this`offset, w`m
      ensures Ok() && ChangedWithin(old(w.m), w.m, heap, heap + heapSize)
      ensures p == 0 <==> old(offset) + size + MARKER > heapSize
      ensures p == 0 ==> w.m == old(w.m) && offset == old(offset)
      ensures p != 0 ==> offset == old(offset) + size + MARKER
      ensures p != 0 ==> p == heap + old(offset) + MARKER && p !in old(Blocks()) && Blocks() == old(Blocks())[p := size]
      ensures p != 0 ==> PayloadsKept(old(w.m), w.m, old(Blocks()), {})
      ensures p != 0 ==> Stored(old(w.m), w.m, p - 4, size + 0x8000_0000)
    {
      hide Tiled, Live;
      var used := offset + size + MARKER;
      if used > heapSize { return 0; }
      ghost var top := heap + offset;
      p := heap + offset + MARKER;
      w.SetSize(p, size);
      offset := offset + size + MARKER;
      w.MarkAlloc(p);
      Append(old(w.m), w.m, heap, heapSize, old(offset), size);
    }

    method Free(ptr: nat)
      requires Ok() && ptr in Blocks()
      modifies w`m
      ensures Ok() && Blocks() == old(Blocks()) - {ptr}
      ensures Stored(old(w.m), w.m, ptr - 4, old(Blocks()[ptr]))
      ensures PayloadsKept(old(w.m), w.m, old(Blocks()), {})
      ensures ChangedWithin(old(w.m), w.m, heap, heap + heapSize)
    {
      hide Tiled, Live;
      LivePlace(w.m, heap, heapSize, offset, ptr);
      w.MarkFree(ptr);
      FreeBlock(old(w.m), w.m, heap, heapSize, offset, ptr);
    }

    /** Gives a live block another size where it stands. The chain stays well-formed exactly when
        the request neither wraps around nor leaves the used part; then the block is resized, or
        nothing happens. Shrinking does not change the chain. */
    method ReallocInPlace(ptr: nat, size: nat) returns (p: nat, origSize: nat)
      requires Ok() && ptr in Blocks() && size % 8 == 4 && size <= MAX_SIZE
      modifies this`offset, w`m
      ensures origSize == old(Blocks()[ptr])
      ensures Ok() <==> old(!Wraps(w.m, heap, heapSize, offset, ptr, size)
                            && !LeavesUsed(w.m, heap, heapSize, offset, ptr, size))
      ensures !Ok() ==> p == ptr
      ensures Ok() ==> offset >= old(offset)
      ensures Ok() ==> p == if old(FitsInPlace(w.m, heap, heapSize, offset, ptr, size)) then ptr else 0
      ensures Ok() && p == 0 ==> w.m == old(w.m) && offset == old(offset)
      ensures size < origSize ==> offset == old(offset) && Stored(old(w.m), w.m, ptr + size, origSize - size)
      ensures Ok() && p != 0 ==> Blocks() == old(Blocks())[ptr := if size < origSize then origSize else size]
      ensures Ok() && p != 0 ==> PayloadsKept(old(w.m), w.m, old(Blocks()), {ptr})
      ensures Ok() && p != 0 ==> forall x | ptr <= x < ptr + origSize && x < ptr + size && x < |w.m| :: w.m[x] == old(w.m)[x]
      ensures ChangedWithin(old(w.m), w.m, heap, heap + heapSize)
    {
      hide Tiled, Live, Stop, FreeTiled, Merged, HeapOk, LiveIn, Wraps, LeavesUsed, FitsInPlace, PayloadsKept, Minus,
        Size, End, WithState, Stored;
      ghost var m := w.m;
      InPlaceCases(m, heap, heapSize, offset, ptr, size);
      var end := heap + heapSize;
      origSize := Size(w.m[ptr - MARKER]);
      var origEnd := ptr + origSize;
      p := 0;
      if origEnd > end {
        origSize := p;
        return;
      }
      if ptr > Minus(end, size) { return; }
      if origSize > size {
        w.SetSize(ptr + size + MARKER, origSize - size);
        w.MarkFree(ptr + size + MARKER);
        WrittenFree(m, ptr + size, origSize - size);
        WritePayload(m, w.m, heap, heapSize, offset, ptr);
        return ptr, origSize;
      } else if origEnd == heap + offset {
        w.SetSize(ptr, size);
        offset := offset + size - origSize;
        if ptr + size <= end {
          LastIsAlloc(m, heap, heapSize, old(offset), ptr, size);
          ExtendLast(m, w.m, heap, heapSize, old(offset), ptr, size);
          KeptBut(m, w.m, old(Blocks()), ptr);
        } else {
          UsedFits(w.m, heap, heapSize, offset);
        }
        return ptr, origSize;
      }
      if size == origSize {
        KeptSame(m, old(Blocks()), ptr);
        return ptr, origSize;
      }
      p := MergeBehind(ptr, size);
    }

    /** Growth over the free blocks behind a block that is not the last one. */
    method MergeBehind(ptr: nat, size: nat) returns (p: nat)
      requires Ok() && ptr in Blocks() && size % 8 == 4 && size <= MAX_SIZE
      requires Blocks()[ptr] < size && ptr + Blocks()[ptr] != heap + offset
      modifies w`m
      ensures Ok() <==> !old(LeavesUsed(w.m, heap, heapSize, offset, ptr, size))
      ensures !Ok() ==> p == ptr
      ensures Ok() ==> p == if old(FitsInPlace(w.m, heap, heapSize, offset, ptr, size)) then ptr else 0
      ensures Ok() && p == 0 ==> w.m == old(w.m)
      ensures Ok() && p != 0 ==> Blocks() == old(Blocks())[ptr := size] && PayloadsKept(old(w.m), w.m, old(Blocks()), {ptr})
      ensures Ok() && p != 0 ==> forall x | ptr <= x < ptr + old(Blocks()[ptr]) && x < |w.m| :: w.m[x] == old(w.m)[x]
      ensures ChangedWithin(old(w.m), w.m, heap, heap + heapSize)
    {
      hide Tiled, Live, Stop, FreeTiled, Merged, HeapOk, LiveIn, Wraps, LeavesUsed, FitsInPlace, PayloadsKept, Minus,
        Size, End, WithState, Stored;
      ghost var m, origEnd := w.m, ptr + Blocks()[ptr];
      InPlaceCases(m, heap, heapSize, offset, ptr, size);
      GrowSetup(m, heap, heapSize, offset, ptr, size);
      var end := heap + heapSize;
      var ok := w.MergeContiguous(ptr, end, size, true);
      if !ok { return 0; }
      MergedHead(m, ptr - MARKER, Stop(m, origEnd, end, ptr + size), size);
      w.MarkAlloc(ptr);
      GrowStep(m, w.m, heap, heapSize, offset, ptr, size);
      if Ok() { KeptBut(m, w.m, old(Blocks()), ptr); }
      p := ptr;
    }

    /** Turns what remains untouched into a free block. */
    method CleanupRemaining()
      requires Ok()
      modifies this`offset, w`m
      ensures Ok() && offset == heapSize && Blocks() == old(Blocks())
      ensures if old(offset) == heapSize then w.m == old(w.m)
              else Stored(old(w.m), w.m, heap + old(offset), heapSize - old(offset) - 4)
      ensures PayloadsKept(old(w.m), w.m, old(Blocks()), {})
      ensures ChangedWithin(old(w.m), w.m, heap, heap + heapSize)
    {
      hide Tiled, Live;
      if offset == heapSize { return; }
      Aligned(w.m, heap, heap + offset);
      var size := heapSize - offset - MARKER;
      var p := heap + offset + MARKER;
      w.SetSize(p, size);
      offset := heapSize;
      w.MarkFree(p);
      Append(old(w.m), w.m, heap, heapSize, old(offset), size);
    }

    /** Takes in memory that begins where this heap ends. */
    method ExpandMemory(start: nat, size: nat) returns (ok: bool)
      requires Ok() && size % 8 == 0 && start + size <= |w.m| && Zeros(w.m, start, start + size)
      modifies this`heapSize
      ensures ok <==> old(heap + heapSize) == start
      ensures heapSize == old(heapSize) + if ok then size else 0
      ensures Ok() && Blocks() == old(Blocks())
    {
      hide Tiled, Live;
      if heap + heapSize != start { return false; }
      heapSize := heapSize + size;
      ok := true;
    }

    /** First fit among the freed blocks of a full heap, merging on the way: 0 exactly when no
        run of adjacent free blocks has a merged payload of `size`. */
    method MallocFromFreed(size: nat) returns (p: nat)
      requires Ok() && offset == heapSize > 0 && size % 8 == 4 && size <= MAX_SIZE
      modifies w`m
      ensures Ok() && ChangedWithin(old(w.m), w.m, heap, heap + heapSize)
      ensures PayloadsKept(old(w.m), w.m, old(Blocks()), {})
      ensures p != 0 <==> CanServe(old(w.m), heap, heap + heapSize, size)
      ensures p == 0 ==> Blocks() == old(Blocks()) && !CanServe(w.m, heap, heap + heapSize, size)
      ensures p != 0 ==> p !in old(Blocks()) && Blocks() == old(Blocks())[p := size]
      ensures p != 0 ==> p >= MARKER && TooSmallBefore(old(w.m), heap, heap + heapSize, p - MARKER, size)
    {
      hide Tiled, Live, TooSmallBefore, CanServe, Searched, Stop, Merged, FreeTiled, PayloadsKept, ChangedWithin, Run, HeapOk, LiveIn;
      ghost var m0, lo, hi, cur := w.m, heap, heap + heapSize, heap;
      HeapSizeAligned(m0, heap, heapSize, offset);
      FullHeap(m0, heap, heapSize);
      SearchStarts(m0, lo, hi, size);
      var current := heap + MARKER;
      while current != 0
        invariant Searched(m0, w.m, lo, hi, cur, size)
        invariant current == if cur == hi then 0 else cur + MARKER
        invariant cur <= hi
        decreases hi - cur
      {
        SearchedAt(m0, w.m, lo, hi, cur, size);
        var end: nat;
        if !IsAlloc(w.m[current - MARKER]) {
          WalkStops(m0, w.m, lo, hi, cur, size);
          ghost var m, e := w.m, Stop(w.m, End(w.m, cur), hi, current + size);
          var ok := w.MergeContiguous(current, heap + heapSize, size, false);
          if ok {
            MergedHead(m, cur, e, size);
            w.MarkAlloc(current);
            SearchTakes(m0, m, w.m, lo, hi, cur, size, e);
            FullHeap(w.m, heap, heapSize);
            return current;
          }
          SearchMerges(m0, m, lo, hi, cur, size, e);
          end := current + Size(w.m[current - MARKER]);
        } else {
          SearchSkips(m0, w.m, lo, hi, cur, size);
          end := current + Size(w.m[current - MARKER]);
        }
        current := if end + MARKER >= heap + heapSize then 0 else end + MARKER;
        cur := end;
        if cur < hi { SearchedAt(m0, w.m, lo, hi, cur, size); }
      }
      SearchEnds(m0, w.m, lo, hi, size);
      FullHeap(w.m, heap, heapSize);
      p := 0;
    }
  }

  /** A size written and its state cleared. */
  lemma WrittenFree(m: Words, a: nat, n: nat)
    requires a < |m| && n < ALLOC
    ensures var m1 := m[a := WithState(m[a], n)]; Stored(m, m1[a := Size(m1[a])], a, n)
  {
  }

  lemma UsedFits(m: Words, heap: nat, heapSize: nat, offset: nat)
    requires offset > heapSize
    ensures !HeapOk(m, heap, heapSize, offset)
  {
  }

  lemma LastIsAlloc(m: Words, heap: nat, heapSize: nat, offset: nat, p: nat, n: nat)
    requires HeapOk(m, heap, heapSize, offset) && p in LiveIn(m, heap, heapSize, offset) && n < ALLOC
    ensures MARKER <= p < |m| + MARKER && WithState(m[p - MARKER], n) == n + ALLOC
  {
    LivePlace(m, heap, heapSize, offset, p);
  }

  lemma KeptBut(m: Words, m': Words, live: map<nat, nat>, p: nat)
    requires PayloadsKept(m, m', live, {}) && p in live && |m'| == |m|
    ensures PayloadsKept(m, m', live, {p})
    ensures forall x | p <= x < p + live[p] && x < |m| :: m'[x] == m[x]
  {
  }

  lemma KeptSame(m: Words, live: map<nat, nat>, p: nat)
    requires p in live
    ensures PayloadsKept(m, m, live, {p}) && live == live[p := live[p]]
  {
  }

  lemma FullHeap(m: Words, heap: nat, heapSize: nat)
    requires heapSize % 8 == 0
    ensures HeapOk(m, heap, heapSize, heapSize) <==> Tiled(m, heap, heap + heapSize)
    ensures HeapOk(m, heap, heapSize, heapSize) ==>
      LiveIn(m, heap, heapSize, heapSize) == Live(m, heap, heap + heapSize)
  {
    if Tiled(m, heap, heap + heapSize) { Aligned(m, heap, heap + heapSize); }
  }

  lemma HeapSizeAligned(m: Words, heap: nat, heapSize: nat, offset: nat)
    requires HeapOk(m, heap, heapSize, offset)
    ensures heapSize % 8 == 0
  {
  }

  lemma MergedHead(m: Words, a: nat, e: nat, needed: nat)
    requires a + MARKER + needed <= e <= |m| && needed < ALLOC
    requires a + MARKER + needed < e ==> a + needed + 2 * MARKER <= e
    ensures Size(Merged(m, a, e, needed)[a]) == needed
  {
  }
}
