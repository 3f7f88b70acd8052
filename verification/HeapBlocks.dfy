/** Blocks of the contract heap: stretches of linear memory, each behind a header word that
    holds its payload size and, in the top bit, whether it is allocated. */
module HeapBlocks {

  type Word = x: nat | x < 0x1_0000_0000
  /** Linear memory below 2^31 bytes; the entry at an address is the four-byte word there. */
  type Words = m: seq<Word> | |m| <= 0x7fff_0000 witness []

  const MARKER: nat := 4
  const ALLOC: nat := 0x8000_0000

  function Size(w: Word): nat { if w >= ALLOC then w - ALLOC else w }
  predicate IsAlloc(w: Word) { w >= ALLOC }

  /** Where the block with its header at `a` ends. */
  function End(m: Words, a: nat): nat
    requires a < |m|
  {
    a + MARKER + Size(m[a])
  }

  /** A chain of headers covers lo..hi exactly, with every payload size 4 modulo 8. */
  ghost predicate Tiled(m: Words, lo: nat, hi: nat)
    decreases hi - lo
  {
    if lo >= hi then lo == hi <= |m|
    else hi <= |m| && Size(m[lo]) % 8 == 4 && End(m, lo) <= hi && Tiled(m, End(m, lo), hi)
  }

  /** A chain of free blocks covers lo..hi. */
  ghost predicate FreeTiled(m: Words, lo: nat, hi: nat)
    decreases hi - lo
  {
    if lo >= hi then lo == hi <= |m|
    else hi <= |m| && Size(m[lo]) % 8 == 4 && !IsAlloc(m[lo]) && End(m, lo) <= hi && FreeTiled(m, End(m, lo), hi)
  }

  /** The live blocks: payload addresses with payload sizes. */
  ghost function Live(m: Words, lo: nat, hi: nat): map<nat, nat>
    requires Tiled(m, lo, hi)
    decreases hi - lo
  {
    if lo >= hi then map[] else LiveFirst(m, lo) + Live(m, End(m, lo), hi)
  }

  ghost function LiveFirst(m: Words, a: nat): map<nat, nat>
    requires a < |m|
  {
    if IsAlloc(m[a]) then map[a + MARKER := Size(m[a])] else map[]
  }

  // ----- Chains -----

  /** A block on its own. */
  lemma OneBlock(m: Words, a: nat)
    requires a < |m| && Size(m[a]) % 8 == 4 && End(m, a) <= |m|
    ensures Tiled(m, a, End(m, a)) && Live(m, a, End(m, a)) == LiveFirst(m, a)
    ensures !IsAlloc(m[a]) ==> FreeTiled(m, a, End(m, a))
  {
    assert Tiled(m, End(m, a), End(m, a));
  }

  lemma {:induction false} ConcatTiled(m: Words, a: nat, b: nat, c: nat)
    requires Tiled(m, a, b) && Tiled(m, b, c)
    ensures a <= b <= c && Tiled(m, a, c)
    decreases b - a
  {
    Aligned(m, b, c);
    if a < b { ConcatTiled(m, End(m, a), b, c); }
  }

  lemma {:induction false} Concat(m: Words, a: nat, b: nat, c: nat)
    requires Tiled(m, a, b) && Tiled(m, b, c)
    ensures a <= b <= c && Tiled(m, a, c) && Live(m, a, c) == Live(m, a, b) + Live(m, b, c)
    decreases b - a
  {
    ConcatTiled(m, a, b, c);
    if a < b {
      hide LiveFirst;
      Concat(m, End(m, a), b, c);
      Associative(LiveFirst(m, a), Live(m, End(m, a), b), Live(m, b, c));
    }
  }

  lemma Associative(f: map<nat, nat>, g: map<nat, nat>, h: map<nat, nat>)
    ensures (f + g) + h == f + (g + h)
  {
  }

  lemma {:induction false} FreeConcat(m: Words, a: nat, b: nat, c: nat)
    requires FreeTiled(m, a, b) && FreeTiled(m, b, c)
    ensures FreeTiled(m, a, c)
    decreases b - a
  {
    FreeIsTiled(m, a, b);
    FreeIsTiled(m, b, c);
    Aligned(m, a, b);
    Aligned(m, b, c);
    if a < b { FreeConcat(m, End(m, a), b, c); }
  }

  lemma {:induction false} FreeIsTiled(m: Words, lo: nat, hi: nat)
    requires FreeTiled(m, lo, hi)
    ensures Tiled(m, lo, hi) && Live(m, lo, hi) == map[]
    decreases hi - lo
  {
    if lo < hi { FreeIsTiled(m, End(m, lo), hi); }
  }

  lemma {:induction false} Aligned(m: Words, lo: nat, hi: nat)
    requires Tiled(m, lo, hi)
    ensures lo <= hi <= |m| && (hi - lo) % 8 == 0
    decreases hi - lo
  {
    if lo < hi { Aligned(m, End(m, lo), hi); }
  }

  /** Chains look only at the words between their ends. */
  lemma {:induction false} Frame(m: Words, m': Words, lo: nat, hi: nat)
    requires hi <= |m| && hi <= |m'| && forall x | lo <= x < hi :: m'[x] == m[x]
    requires Tiled(m, lo, hi)
    ensures Tiled(m', lo, hi) && Live(m', lo, hi) == Live(m, lo, hi)
    decreases hi - lo
  {
    if lo < hi { Frame(m, m', End(m, lo), hi); }
  }

  lemma {:induction false} FreeFrame(m: Words, m': Words, lo: nat, hi: nat)
    requires hi <= |m| && hi <= |m'| && forall x | lo <= x < hi :: m'[x] == m[x]
    requires FreeTiled(m, lo, hi)
    ensures FreeTiled(m', lo, hi)
    decreases hi - lo
  {
    if lo < hi { FreeFrame(m, m', End(m, lo), hi); }
  }

  /** Two places on one chain are linked by the chain. */
  lemma {:induction false} Between(m: Words, lo: nat, x: nat, y: nat)
    requires Tiled(m, lo, x) && Tiled(m, lo, y) && x <= y
    ensures Tiled(m, x, y)
    decreases x - lo
  {
    Aligned(m, lo, x);
    if lo < x {
      Aligned(m, End(m, lo), x);
      Between(m, End(m, lo), x, y);
    }
  }

  /** A place on the chain splits it. */
  lemma Split(m: Words, lo: nat, x: nat, hi: nat)
    requires Tiled(m, lo, x) && Tiled(m, lo, hi) && x < hi
    ensures Size(m[x]) % 8 == 4 && x < End(m, x) <= hi && Tiled(m, x, hi) && Tiled(m, End(m, x), hi)
    ensures Tiled(m, lo, End(m, x))
  {
    Between(m, lo, x, hi);
    OneBlock(m, x);
    Concat(m, lo, x, End(m, x));
  }

  // ----- Live blocks -----

  /** A live block is a block of the chain. */
  lemma {:induction false} LiveBlock(m: Words, lo: nat, hi: nat, p: nat)
    requires Tiled(m, lo, hi) && p in Live(m, lo, hi)
    ensures lo + MARKER <= p < |m| + MARKER && m[p - MARKER] == ALLOC + Live(m, lo, hi)[p]
    ensures Live(m, lo, hi)[p] % 8 == 4 && p + Live(m, lo, hi)[p] <= hi
    ensures Tiled(m, lo, p - MARKER) && Tiled(m, p + Live(m, lo, hi)[p], hi)
    decreases hi - lo
  {
    if lo < hi {
      var next := End(m, lo);
      Aligned(m, next, hi);
      if p in Live(m, next, hi) {
        LiveBlock(m, next, hi, p);
        OneBlock(m, lo);
        Concat(m, lo, next, p - MARKER);
      }
    }
  }

  /** Live blocks overlap neither each other nor any header of the chain. */
  lemma LiveApart(m: Words, lo: nat, hi: nat, p: nat, q: nat)
    requires Tiled(m, lo, hi) && p in Live(m, lo, hi) && q in Live(m, lo, hi) && p < q
    ensures p + Live(m, lo, hi)[p] + MARKER <= q
  {
    LiveBlock(m, lo, hi, p);
    LiveBlock(m, lo, hi, q);
    HeaderApart(m, lo, hi, p, q - MARKER);
    hide Live;
  }

  lemma HeaderApart(m: Words, lo: nat, hi: nat, p: nat, h: nat)
    requires Tiled(m, lo, hi) && p in Live(m, lo, hi) && Tiled(m, lo, h) && h < hi
    ensures h + MARKER <= p || p + Live(m, lo, hi)[p] <= h
  {
    LiveBlock(m, lo, hi, p);
    if h + MARKER > p { Between(m, lo, p - MARKER, h); }
  }

  ghost function Bytes(blocks: seq<nat>): nat { if blocks == [] then 0 else blocks[0] + MARKER + Bytes(blocks[1..]) }

  /** The payload sizes along the chain, of the free or of the allocated blocks. */
  ghost function Sizes(m: Words, lo: nat, hi: nat, alloc: bool): seq<nat>
    requires Tiled(m, lo, hi)
    decreases hi - lo
  {
    if lo >= hi then []
    else (if IsAlloc(m[lo]) == alloc then [Size(m[lo])] else []) + Sizes(m, End(m, lo), hi, alloc)
  }

  /** Conservation: with their headers, free and allocated blocks add up to the whole stretch. */
  lemma {:induction false} BytesConserved(m: Words, lo: nat, hi: nat)
    requires Tiled(m, lo, hi)
    ensures Bytes(Sizes(m, lo, hi, true)) + Bytes(Sizes(m, lo, hi, false)) == hi - lo
    decreases hi - lo
  {
    if lo < hi {
      var s, next := Size(m[lo]), End(m, lo);
      BytesConserved(m, next, hi);
      BytesFirst(s, Sizes(m, next, hi, IsAlloc(m[lo])));
      assert [] + Sizes(m, next, hi, !IsAlloc(m[lo])) == Sizes(m, next, hi, !IsAlloc(m[lo]));
    }
  }

  lemma BytesFirst(s: nat, rest: seq<nat>)
    ensures Bytes([s] + rest) == s + MARKER + Bytes(rest)
  {
    assert ([s] + rest)[1..] == rest;
  }

  // ----- Rewriting a part of the chain -----

  /** Memory changed at most between a and b. */
  ghost predicate ChangedWithin(m: Words, m': Words, a: nat, b: nat) {
    |m'| == |m| && forall x | 0 <= x < |m| && !(a <= x < b) :: m'[x] == m[x]
  }

  /** When a..b is tiled afresh, the whole chain stands, and its live blocks are those outside
      a..b with those of the new tiling. */
  lemma Rewrite(m: Words, m': Words, lo: nat, a: nat, b: nat, hi: nat)
    requires Tiled(m, lo, a) && Tiled(m, a, b) && Tiled(m, b, hi)
    requires ChangedWithin(m, m', a, b) && Tiled(m', a, b)
    ensures Tiled(m, lo, hi) && Tiled(m', lo, hi)
    ensures Live(m, lo, hi) == Live(m, lo, a) + Live(m, a, b) + Live(m, b, hi)
    ensures Live(m', lo, hi) == Live(m, lo, a) + Live(m', a, b) + Live(m, b, hi)
  {
    Frame(m, m', lo, a);
    Frame(m, m', b, hi);
    Concat(m, lo, a, b);
    Concat(m, lo, b, hi);
    Concat(m', lo, a, b);
    Concat(m', lo, b, hi);
  }

  /** The live blocks outside a..b lie entirely outside. */
  lemma LiveOutside(m: Words, lo: nat, a: nat, b: nat, hi: nat, p: nat)
    requires Tiled(m, lo, a) && Tiled(m, a, b) && Tiled(m, b, hi)
    ensures p in Live(m, lo, a) ==> lo + MARKER <= p && p + Live(m, lo, a)[p] <= a
    ensures p in Live(m, a, b) ==> a + MARKER <= p && p + Live(m, a, b)[p] <= b
    ensures p in Live(m, b, hi) ==> b + MARKER <= p && p + Live(m, b, hi)[p] <= hi
  {
    if p in Live(m, lo, a) { LiveBlock(m, lo, a, p); }
    if p in Live(m, a, b) { LiveBlock(m, a, b, p); }
    if p in Live(m, b, hi) { LiveBlock(m, b, hi, p); }
  }

  /** The words of every live block, but for those named, are the same. */
  ghost predicate PayloadsKept(m: Words, m': Words, live: map<nat, nat>, but: set<nat>) {
    forall p, x | p in live && p !in but && p <= x < p + live[p] && x < |m| && x < |m'| :: m'[x] == m[x]
  }

  /** Rewriting a..b so that one live block stands there where none did. */
  lemma Allocates(m: Words, m': Words, lo: nat, a: nat, b: nat, hi: nat, p: nat, size: nat)
    requires Tiled(m, lo, a) && Tiled(m, a, b) && Tiled(m, b, hi) && Live(m, a, b) == map[]
    requires ChangedWithin(m, m', a, b) && Tiled(m', a, b) && Live(m', a, b) == map[p := size]
    ensures Tiled(m, lo, hi) && Tiled(m', lo, hi)
    ensures Live(m', lo, hi) == Live(m, lo, hi)[p := size] && p !in Live(m, lo, hi)
    ensures PayloadsKept(m, m', Live(m, lo, hi), {})
  {
    hide Tiled, Live;
    Rewrite(m, m', lo, a, b, hi);
    LiveBlock(m', a, b, p);
    LiveOutside(m, lo, a, b, hi, p);
    forall q | q in Live(m, lo, hi) ensures q + Live(m, lo, hi)[q] <= a || b <= q {
      LiveOutside(m, lo, a, b, hi, q);
    }
  }

  /** Rewriting a..b so that the live block that stood there is gone. */
  lemma Releases(m: Words, m': Words, lo: nat, a: nat, b: nat, hi: nat, p: nat)
    requires Tiled(m, lo, a) && Tiled(m, a, b) && Tiled(m, b, hi) && Live(m, a, b).Keys == {p}
    requires ChangedWithin(m, m', a, b) && Tiled(m', a, b) && Live(m', a, b) == map[]
    ensures Tiled(m, lo, hi) && Tiled(m', lo, hi)
    ensures Live(m', lo, hi) == Live(m, lo, hi) - {p}
    ensures PayloadsKept(m, m', Live(m, lo, hi), {p})
  {
    hide Tiled, Live;
    Rewrite(m, m', lo, a, b, hi);
    assert p in Live(m, a, b);
    LiveOutside(m, lo, a, b, hi, p);
    forall q | q in Live(m, lo, hi) && q != p ensures q + Live(m, lo, hi)[q] <= a || b <= q {
      LiveOutside(m, lo, a, b, hi, q);
    }
  }

  /** Rewriting a..b so that the live block there has another size. */
  lemma Resizes(m: Words, m': Words, lo: nat, a: nat, b: nat, hi: nat, p: nat, size: nat)
    requires Tiled(m, lo, a) && Tiled(m, a, b) && Tiled(m, b, hi) && Live(m, a, b).Keys == {p}
    requires ChangedWithin(m, m', a, b) && Tiled(m', a, b) && Live(m', a, b) == map[p := size]
    ensures Tiled(m, lo, hi) && Tiled(m', lo, hi)
    ensures Live(m', lo, hi) == Live(m, lo, hi)[p := size]
    ensures PayloadsKept(m, m', Live(m, lo, hi), {p})
  {
    hide Tiled, Live;
    Rewrite(m, m', lo, a, b, hi);
    assert p in Live(m, a, b);
    LiveOutside(m, lo, a, b, hi, p);
    forall q | q in Live(m, lo, hi) && q != p ensures q + Live(m, lo, hi)[q] <= a || b <= q {
      LiveOutside(m, lo, a, b, hi, q);
    }
  }

  /** Rewriting a..b where nothing is live, before and after. */
  lemma Rearranges(m: Words, m': Words, lo: nat, a: nat, b: nat, hi: nat)
    requires Tiled(m, lo, a) && Tiled(m, a, b) && Tiled(m, b, hi) && Live(m, a, b) == map[]
    requires ChangedWithin(m, m', a, b) && Tiled(m', a, b) && Live(m', a, b) == map[]
    ensures Tiled(m, lo, hi) && Tiled(m', lo, hi)
    ensures Live(m', lo, hi) == Live(m, lo, hi)
    ensures PayloadsKept(m, m', Live(m, lo, hi), {})
  {
    hide Tiled, Live;
    Rewrite(m, m', lo, a, b, hi);
    forall q | q in Live(m, lo, hi) ensures q + Live(m, lo, hi)[q] <= a || b <= q {
      LiveOutside(m, lo, a, b, hi, q);
    }
  }

  // ----- Merging free blocks -----

  /** Where the walk over contiguous free memory stops: at `limit` or beyond, at an allocated
      block, or at the end of the heap. */
  function Stop(m: Words, pos: nat, heapEnd: nat, limit: nat): (e: nat)
    requires heapEnd <= |m|
    ensures e >= pos
    decreases heapEnd - pos
  {
    if pos < limit && pos < heapEnd && !IsAlloc(m[pos]) then Stop(m, End(m, pos), heapEnd, limit) else pos
  }

  ghost predicate Zeros(m: Words, lo: nat, hi: nat) {
    hi <= |m| && forall x | lo <= x < hi :: m[x] == 0
  }

  /** The free blocks behind `pos` reach up to `top`, do not suffice, and the heap goes on. */
  ghost predicate Overruns(m: Words, pos: nat, top: nat, heapEnd: nat, limit: nat) {
    FreeTiled(m, pos, top) && top < limit && top < heapEnd
  }

  /** The walk stops on the chain unless it overruns the chain's end. */
  lemma {:induction false} StopOnChain(m: Words, pos: nat, top: nat, heapEnd: nat, limit: nat)
    requires Tiled(m, pos, top) && top <= heapEnd <= |m| && !Overruns(m, pos, top, heapEnd, limit)
    ensures var e := Stop(m, pos, heapEnd, limit);
      && pos <= e <= top && FreeTiled(m, pos, e) && Tiled(m, e, top)
      && (e >= limit || e == heapEnd || (e < top && IsAlloc(m[e])))
    decreases heapEnd - pos
  {
    Aligned(m, pos, top);
    if pos < limit && pos < heapEnd && !IsAlloc(m[pos]) {
      if pos < top { StopOnChain(m, End(m, pos), top, heapEnd, limit); }
    }
  }

  /** An overrunning walk goes on over untouched memory, word by word, up to the limit. */
  lemma StopOverruns(m: Words, pos: nat, top: nat, heapEnd: nat, limit: nat)
    requires Overruns(m, pos, top, heapEnd, limit) && Zeros(m, top, heapEnd)
    requires limit <= heapEnd <= |m| && (limit - pos) % 4 == 0
    ensures Stop(m, pos, heapEnd, limit) == limit
  {
    hide Tiled, FreeTiled, Zeros, Stop;
    FreeIsTiled(m, pos, top);
    Aligned(m, pos, top);
    StopThroughFree(m, pos, top, heapEnd, limit);
    StopOnZeros(m, top, heapEnd, limit);
  }

  lemma {:induction false} StopThroughFree(m: Words, pos: nat, top: nat, heapEnd: nat, limit: nat)
    requires FreeTiled(m, pos, top) && top < limit && top < heapEnd <= |m|
    ensures Stop(m, pos, heapEnd, limit) == Stop(m, top, heapEnd, limit)
    decreases top - pos
  {
    if pos < top { StopThroughFree(m, End(m, pos), top, heapEnd, limit); }
  }

  lemma {:induction false} StopOnZeros(m: Words, pos: nat, heapEnd: nat, limit: nat)
    requires Zeros(m, pos, heapEnd) && pos <= limit <= heapEnd && (limit - pos) % 4 == 0
    ensures Stop(m, pos, heapEnd, limit) == limit
    decreases heapEnd - pos
  {
    if pos < limit { StopOnZeros(m, End(m, pos), heapEnd, limit); }
  }

  /** Two free or allocated blocks in place of the chain a..e: one of `needed` bytes that keeps
      the state of the first, and a free one for what remains. */
  lemma Divided(m': Words, a: nat, e: nat, needed: nat)
    requires a + MARKER + needed <= e <= |m'| && needed % 8 == 4 && (e - a) % 8 == 0
    requires Size(m'[a]) == needed
    requires a + MARKER + needed < e ==> m'[a + MARKER + needed] == e - a - needed - 2 * MARKER
    ensures Tiled(m', a, e) && Live(m', a, e) == LiveFirst(m', a)
    ensures !IsAlloc(m'[a]) ==> FreeTiled(m', a, e)
  {
    OneBlock(m', a);
    var rest := a + MARKER + needed;
    if rest < e {
      OneBlock(m', rest);
      Concat(m', a, rest, e);
    }
  }

  // ----- Runs of free blocks -----

  /** A run of adjacent free blocks of the chain, from the header at x up to y. */
  ghost predicate Run(m: Words, lo: nat, hi: nat, x: nat, y: nat) {
    Tiled(m, lo, x) && FreeTiled(m, x, y) && Tiled(m, y, hi) && x < y
  }

  /** Some run of adjacent free blocks has, with its inner headers, a payload of `size`. */
  ghost predicate CanServe(m: Words, lo: nat, hi: nat, size: nat) {
    exists x: nat, y: nat :: Run(m, lo, hi, x, y) && y - x - MARKER >= size
  }

  /** The runs that start before `cur` are too small. */
  ghost predicate TooSmallBefore(m: Words, lo: nat, hi: nat, cur: nat, size: nat) {
    forall x: nat, y: nat | Run(m, lo, hi, x, y) && x < cur :: y - x - MARKER < size
  }

  lemma SkipAllocated(m: Words, lo: nat, hi: nat, cur: nat, size: nat)
    requires Tiled(m, lo, cur) && Tiled(m, lo, hi) && cur < hi && IsAlloc(m[cur])
    requires TooSmallBefore(m, lo, hi, cur, size)
    ensures cur < End(m, cur) && TooSmallBefore(m, lo, hi, End(m, cur), size)
  {
    Split(m, lo, cur, hi);
    forall x: nat, y: nat | Run(m, lo, hi, x, y) && x < End(m, cur) ensures y - x - MARKER < size {
      if x >= cur {
        Between(m, lo, cur, x);
        assert false;
      }
    }
  }

  /** A run ends where an allocated block begins. */
  lemma RunEnds(m: Words, lo: nat, hi: nat, x: nat, y: nat, e: nat)
    requires Run(m, lo, hi, x, y) && Tiled(m, lo, e) && x < e < |m| && (e == hi || IsAlloc(m[e]))
    ensures y <= e
  {
    FreeIsTiled(m, x, y);
    Aligned(m, y, hi);
    if y > e {
      Between(m, lo, x, e);
      FreeAt(m, x, y, e);
    }
  }

  /** Every block inside a run is free. */
  lemma {:induction false} FreeAt(m: Words, x: nat, y: nat, e: nat)
    requires FreeTiled(m, x, y) && Tiled(m, x, e) && x <= e < y
    ensures !IsAlloc(m[e])
    decreases e - x
  {
    if x < e {
      Aligned(m, End(m, x), e);
      FreeAt(m, End(m, x), y, e);
    }
  }

  lemma SkipFree(m: Words, lo: nat, hi: nat, cur: nat, e: nat, size: nat)
    requires Tiled(m, lo, cur) && Tiled(m, cur, e) && cur < e <= hi && Tiled(m, lo, hi)
    requires e == hi || IsAlloc(m[e])
    requires e - cur - MARKER < size && TooSmallBefore(m, lo, hi, cur, size)
    ensures TooSmallBefore(m, lo, hi, e, size)
  {
    Concat(m, lo, cur, e);
    forall x: nat, y: nat | Run(m, lo, hi, x, y) && x < e ensures y - x - MARKER < size {
      if x >= cur {
        if e < hi { RunEnds(m, lo, hi, x, y, e); } else { Aligned(m, y, hi); }
      }
    }
  }

  /** The part of a run before one of its headers. */
  lemma {:induction false} FreePrefix(m: Words, x: nat, y: nat, e: nat)
    requires FreeTiled(m, x, y) && Tiled(m, x, e) && x <= e <= y
    ensures FreeTiled(m, x, e)
    decreases e - x
  {
    if x < e {
      Aligned(m, End(m, x), e);
      FreePrefix(m, End(m, x), y, e);
    }
  }

  /** Merging a run makes no run before it longer. */
  lemma MergedRun(m: Words, m': Words, lo: nat, hi: nat, cur: nat, e: nat, x: nat, y: nat)
    requires Tiled(m, lo, cur) && FreeTiled(m, cur, e) && Tiled(m, e, hi) && cur < e
    requires |m'| == |m| && e <= |m| && forall z | 0 <= z < |m| && !(cur <= z < e) :: m'[z] == m[z]
    requires e == hi || (e < |m| && IsAlloc(m[e]))
    requires Tiled(m', lo, cur) && Tiled(m', lo, e) && Run(m', lo, hi, x, y) && x < cur
    ensures exists y' :: y <= y' && Run(m, lo, hi, x, y')
  {
    hide Tiled, FreeTiled;
    Aligned(m', lo, x);
    Aligned(m', y, hi);
    Frame(m', m, lo, x);
    FreeIsTiled(m', x, y);
    ConcatTiled(m', lo, x, y);
    if y <= cur {
      Between(m', lo, y, cur);
      FreeFrame(m', m, x, y);
      Frame(m', m, y, cur);
      FreeIsTiled(m, cur, e);
      ConcatTiled(m, y, cur, e);
      ConcatTiled(m, y, e, hi);
      assert Run(m, lo, hi, x, y);
    } else {
      if e < hi { RunEnds(m', lo, hi, x, y, e); }
      Between(m', lo, x, cur);
      FreePrefix(m', x, y, cur);
      FreeFrame(m', m, x, cur);
      FreeConcat(m, x, cur, e);
      assert Run(m, lo, hi, x, e);
    }
  }

  lemma MergedTooSmall(m: Words, m': Words, lo: nat, hi: nat, cur: nat, e: nat, size: nat)
    requires Tiled(m, lo, cur) && FreeTiled(m, cur, e) && Tiled(m, e, hi) && cur < e
    requires |m'| == |m| && e <= |m| && forall z | 0 <= z < |m| && !(cur <= z < e) :: m'[z] == m[z]
    requires e == hi || (e < |m| && IsAlloc(m[e]))
    requires Tiled(m', lo, cur) && Tiled(m', lo, e) && TooSmallBefore(m, lo, hi, cur, size)
    ensures TooSmallBefore(m', lo, hi, cur, size)
  {
    hide Tiled, FreeTiled, Run;
    forall x: nat, y: nat | Run(m', lo, hi, x, y) && x < cur ensures y - x - MARKER < size {
      MergedRun(m, m', lo, hi, cur, e, x, y);
    }
  }
}
