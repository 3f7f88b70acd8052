/** The contract's linear memory: `sbrk`, and the header words that `buffer_ptr` reads and writes. */
module LinearMemory {
  import opened HeapBlocks

  const PAGE: nat := 65536
  /** What the host lets memory have, by number of pages: always less than 2^31 bytes. A refusal
      ends the growth for good, so that no number of pages is ever asked for twice. */
  type Host = grants: nat -> bool | forall pages :: grants(pages) ==> pages <= 0x7fff witness (_ => false)

  /** `reinterpret_cast<void*>(-1)`. */
  const FAILED: nat := 0xffff_ffff
  const INT32_MAX: nat := 0x7fff_ffff

  /** Memory that has only grown, with zeros. */
  ghost predicate Extends(m: Words, m': Words) {
    |m| <= |m'| && (forall x | 0 <= x < |m| :: m'[x] == m[x]) && Zeros(m', |m|, |m'|)
  }

  function WithState(w: Word, size: nat): Word
    requires size < ALLOC
  {
    if IsAlloc(w) then size + ALLOC else size
  }

  /** What merging the stretch a..e writes: the first block takes what it needs or all there is,
      and the remainder becomes a free block. */
  function Merged(m: Words, a: nat, e: nat, needed: nat): (r: Words)
    requires a + MARKER <= e <= |m|
    requires a + MARKER + needed < e ==> a + needed + 2 * MARKER <= e
    ensures |r| == |m|
  {
    var size := e - a - MARKER;
    if size <= needed then m[a := WithState(m[a], size)]
    else m[a := WithState(m[a], needed)][a + MARKER + needed := size - needed - MARKER]
  }

  /** The bytes from `current` on that the allocator asks for. */
  function GrowthFrom(current: nat): int {
    if current % PAGE <= PAGE - 1024 then current + PAGE - current % PAGE - current
    else current + PAGE * 2 - current % (PAGE * 2) - current
  }

  /** Growth always ends at a page boundary. It stays below 1024 bytes exactly in the last 1023
      bytes of an odd page, and exceeds a page, by at most 1023 bytes, exactly in the last 1023
      bytes of an even one. From a page boundary it is one page. */
  lemma GrowthIsAligned(current: nat)
    ensures var grown := GrowthFrom(current);
      && 0 < grown <= 65536 + 1023 && (current + grown) % 65536 == 0
      && (current % 65536 == 0 ==> grown == 65536)
      && (grown < 1024 <==> current % 131072 > 131072 - 1024)
      && (grown > 65536 <==> current % 65536 > 65536 - 1024 && current % 131072 < 65536)
  {
    var pages, rest := current / PAGE, current % PAGE;
    assert current == PAGE * pages + rest;
    InPages(pages, rest);
    if rest <= PAGE - 1024 {
      WholePages(pages + 1);
    } else if pages % 2 == 0 {
      WholePages(pages + 2);
    } else {
      WholePages(pages + 1);
    }
  }

  lemma WholePages(k: int)
    ensures PAGE * k % PAGE == 0
  {
  }

  /** The place in a pair of pages. */
  lemma InPages(pages: nat, rest: nat)
    requires rest < PAGE
    ensures (PAGE * pages + rest) % (PAGE * 2) == if pages % 2 == 0 then rest else PAGE + rest
  {
    var pairs := pages / 2;
    assert pages == 2 * pairs + pages % 2;
    InPairs(pairs, if pages % 2 == 0 then rest else PAGE + rest);
  }

  lemma InPairs(pairs: nat, place: nat)
    requires place < 2 * PAGE
    ensures (2 * PAGE * pairs + place) % (2 * PAGE) == place
  {
  }

  /** uint32_t. */
  function U32(x: nat): nat { x % 0x1_0000_0000 }

  /** What the bound on requests is for: below it no sum wraps around. */
  lemma NoWrap(before: nat, numBytes: nat)
    requires before <= 0x7fff_0000 && numBytes <= 0x7fff_ffff
    ensures var rounded := (numBytes + 7) / 8 * 8;
      && U32(numBytes + 7) == numBytes + 7 && U32(before + rounded) == before + rounded
      && U32(before + rounded + 65535) == before + rounded + 65535
  {
    var blocks := (numBytes + 7) / 8;
    assert blocks <= 0x1000_0000;
  }

  lemma WithinHost(current: nat, pages: nat, size: nat)
    requires size == 65536 * current && current + pages <= 0x7fff
    ensures size + pages * PAGE <= 0x7fff_0000
  {
  }

  class Wasm {
    const host: Host
    var m: Words
    var initialized: bool
    var sbrkBytes: nat

    constructor (host: Host, m: Words)
      ensures this.host == host && this.m == m && !initialized
    {
      this.host, this.m := host, m;
      initialized, sbrkBytes := false, 0;
    }

    /** `__builtin_wasm_memory_grow`: all the pages asked for, with zeros, exactly when the host
        lets memory have them, and otherwise none. */
    method Grow(pages: nat)
      requires |m| % 65536 == 0
      modifies this`m
      ensures if host(|old(m)| / 65536 + pages) then |m| == |old(m)| + pages * 65536 && Extends(old(m), m)
              else m == old(m)
    {
      if host(|m| / PAGE + pages) {
        WithinHost(|m| / PAGE, pages, |m|);
        m := m + seq(pages * PAGE, i => 0);
      }
    }

    /** Grows by the bytes asked for, rounded up, or changes nothing; the new memory is zero. It fails
        exactly when too much is asked for, or pages are needed that the host does not give. */
    method Sbrk(numBytes: nat) returns (r: nat)
      requires numBytes < 0x1_0000_0000 && |m| % 65536 == 0 && (initialized ==> sbrkBytes <= |m|)
      modifies this
      ensures initialized && sbrkBytes <= |m| && |m| % 65536 == 0 && Extends(old(m), m)
      ensures var before := if old(initialized) then old(sbrkBytes) else |old(m)|;
        var rounded := (numBytes + 7) / 8 * 8;
        var pages := (before + rounded + 65535) / 65536;
        if numBytes > 0x7fff_ffff || (pages > |old(m)| / 65536 && !host(pages))
        then r == 0xffff_ffff && m == old(m) && sbrkBytes == before
        else r == before && sbrkBytes == before + rounded
             && |m| == if pages > |old(m)| / 65536 then pages * 65536 else |old(m)|
    {
      hide U32;
      if !initialized {
        sbrkBytes := |m|;
        initialized := true;
      }
      if numBytes > INT32_MAX { return FAILED; }
      var previous, current := sbrkBytes, |m| / PAGE;
      NoWrap(sbrkBytes, numBytes);
      var rounded := U32(numBytes + 7) / 8 * 8;
      var desired := U32(U32(sbrkBytes + rounded) + PAGE - 1) / PAGE;
      if desired > current {
        Grow(desired - current);
        if desired != |m| / PAGE { return FAILED; }
      }
      sbrkBytes := U32(sbrkBytes + rounded);
      r := previous;
    }

    // ----- Header words -----

    /** `size(val)`: the state of the block stays. */
    method SetSize(ptr: nat, size: nat)
      requires MARKER <= ptr && ptr - MARKER < |m| && size < ALLOC
      modifies this`m
      ensures m == old(m)[ptr - MARKER := WithState(old(m)[ptr - MARKER], size)]
    {
      m := m[ptr - MARKER := WithState(m[ptr - MARKER], size)];
    }

    method MarkAlloc(ptr: nat)
      requires MARKER <= ptr && ptr - MARKER < |m|
      modifies this`m
      ensures m == old(m)[ptr - MARKER := Size(old(m)[ptr - MARKER]) + ALLOC]
    {
      var w: Word := m[ptr - MARKER];
      m := m[ptr - MARKER := if IsAlloc(w) then w else w + ALLOC];
    }

    method MarkFree(ptr: nat)
      requires MARKER <= ptr && ptr - MARKER < |m|
      modifies this`m
      ensures m == old(m)[ptr - MARKER := Size(old(m)[ptr - MARKER])]
    {
      var w: Word := m[ptr - MARKER];
      m := m[ptr - MARKER := if IsAlloc(w) then w - ALLOC else w];
    }

    /** Walks over contiguous free memory behind the block until it suffices, merges it, and
        gives back what is not needed; with allOrNothing it changes nothing unless it suffices. */
    method MergeContiguous(ptr: nat, heapEnd: nat, needed: nat, allOrNothing: bool) returns (ok: bool)
      requires MARKER <= ptr && ptr <= heapEnd <= |m|
      requires !(allOrNothing && heapEnd - ptr < needed) ==>
        var e := Stop(m, End(m, ptr - MARKER), heapEnd, ptr + needed);
        e <= heapEnd && (e > ptr + needed ==> e >= ptr + needed + MARKER)
      modifies this`m
      ensures if allOrNothing && heapEnd - ptr < needed then !ok && m == old(m) else
        var e := Stop(old(m), End(old(m), ptr - MARKER), heapEnd, ptr + needed);
        && (ok <==> e >= ptr + needed)
        && m == if allOrNothing && !ok then old(m) else Merged(old(m), ptr - MARKER, e, needed)
    {
      ghost var e := Stop(m, End(m, ptr - MARKER), heapEnd, ptr + needed);
      if allOrNothing && heapEnd - ptr < needed { return false; }
      var possible := Size(m[ptr - MARKER]);
      while possible < needed && ptr + possible < heapEnd
        invariant Stop(m, ptr + possible, heapEnd, ptr + needed) == e
        invariant possible >= Size(m[ptr - MARKER])
        decreases heapEnd - (ptr + possible)
      {
        var next := m[ptr + possible];
        if IsAlloc(next) { break; }
        possible := possible + Size(next) + MARKER;
      }
      assert ptr + possible == e;
      if allOrNothing && possible < needed { return false; }
      SetSize(ptr, if possible < needed then possible else needed);
      if possible > needed {
        SetSize(ptr + needed + MARKER, possible - needed - MARKER);
        MarkFree(ptr + needed + MARKER);
      }
      ok := possible >= needed;
    }

    /** `memcpy` between separate stretches. */
    method Copy(dst: nat, src: nat, n: nat)
      requires dst + n <= |m| && src + n <= |m|
      modifies this`m
      ensures ChangedWithin(old(m), m, dst, dst + n)
      ensures m[dst..dst + n] == old(m)[src..src + n]
    {
      m := m[..dst] + m[src..src + n] + m[dst + n..];
    }
  }
}
