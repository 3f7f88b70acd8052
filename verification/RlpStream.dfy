/** `RLPStream`: lists are announced by their number of items and wrapped in place when
    the last item has been appended. */
module RlpStream {
  import opened Rlp

  /** An open list: how many items it still expects, and the bytes appended to it so far. */
  datatype Frame = Frame(remaining: nat, payload: Bytes)

  /** What has been appended so far: complete output, and the open lists inside one another. */
  datatype Progress = Progress(top: Bytes, frames: seq<Frame>) {
    ghost predicate Valid() {
      forall i | 0 <= i < |frames| :: frames[i].remaining > 0
    }
  }

  /** Bytes that count as n items. Completing items may complete the lists around them. */
  function Add(p: Progress, s: Bytes, n: nat): (r: Progress)
    requires p.Valid() && CanTake(p, n)
    ensures r.Valid() && |r.frames| <= |p.frames|
    decreases |p.frames|
  {
    if p.frames == [] then p.(top := p.top + s)
    else
      var last := |p.frames| - 1;
      var f := p.frames[last];
      if n == 0 || f.remaining > n then
        p.(frames := p.frames[..last] + [Frame(f.remaining - n, f.payload + s)])
      else
        Add(p.(frames := p.frames[..last]), EncodeList(f.payload + s), 1)
  }

  /** The innermost open list expects at least n more items. */
  predicate CanTake(p: Progress, n: nat) {
    n == 0 || p.frames == [] || n <= p.frames[|p.frames| - 1].remaining
  }

  /** Opening a list; an empty one is complete at once. */
  function Open(p: Progress, n: nat): (r: Progress)
    requires p.Valid()
    ensures r.Valid()
  {
    if n == 0 then Add(p, EncodeList([]), 1) else p.(frames := p.frames + [Frame(n, [])])
  }

  /** Items appended one after another. */
  ghost function AddEach(p: Progress, xs: seq<Item>): (r: Progress)
    requires p.Valid()
    ensures r.Valid()
    decreases |xs|
  {
    if xs == [] then p else AddEach(Add(p, Encode(xs[0]), 1), xs[1..])
  }

  /** An open list with as many items as it expects becomes one item of what is around it. */
  lemma {:induction false} FillList(p: Progress, done: Bytes, xs: seq<Item>)
    requires p.Valid() && xs != []
    ensures AddEach(p.(frames := p.frames + [Frame(|xs|, done)]), xs) == Add(p, EncodeList(done + EncodeAll(xs)), 1)
    decreases |xs|
  {
    hide Encode, EncodeList;
    var q := p.(frames := p.frames + [Frame(|xs|, done)]);
    var first, rest := Encode(xs[0]), EncodeAll(xs[1..]);
    assert q.frames[..|p.frames|] == p.frames;
    assert done + (first + rest) == done + first + rest;
    if |xs| == 1 {
      assert rest == [] && done + first + rest == done + first;
      assert Add(q, first, 1) == Add(p, EncodeList(done + first), 1);
    } else {
      var r := p.(frames := p.frames + [Frame(|xs| - 1, done + first)]);
      assert Add(q, first, 1) == r;
      FillList(p, done + first, xs[1..]);
    }
  }

  lemma {:induction false} AddEachAtTop(p: Progress, xs: seq<Item>)
    requires p.frames == []
    ensures AddEach(p, xs) == p.(top := p.top + EncodeAll(xs))
    decreases |xs|
  {
    hide Encode;
    if xs == [] {
      assert p.top + EncodeAll(xs) == p.top;
    } else {
      AddEachAtTop(Add(p, Encode(xs[0]), 1), xs[1..]);
      assert p.top + Encode(xs[0]) + EncodeAll(xs[1..]) == p.top + EncodeAll(xs);
    }
  }

  // ----- Complete items -----

  ghost predicate IsItems(s: Bytes) { exists xs :: s == EncodeAll(xs) }

  /** Every open list holds the encodings of complete items so far, and so does the output
      before the outermost one. */
  ghost predicate Whole(p: Progress) {
    IsItems(p.top) && forall i | 0 <= i < |p.frames| :: IsItems(p.frames[i].payload)
  }

  lemma ItemsConcat(s: Bytes, t: Bytes)
    requires IsItems(s) && IsItems(t)
    ensures IsItems(s + t) && IsItems(EncodeList(s + t))
  {
    hide EncodeAll, EncodeList;
    var xs :| s == EncodeAll(xs);
    var ys :| t == EncodeAll(ys);
    EncodeAllConcat(xs, ys);
    ListEncoding(xs + ys);
    EncodeAllOne(List(xs + ys));
  }

  lemma ListEncoding(xs: seq<Item>)
    ensures Encode(List(xs)) == EncodeList(EncodeAll(xs))
  {
  }

  /** Complete items keep it so, whatever lists they complete. */
  lemma {:induction false} WholeKept(p: Progress, s: Bytes, n: nat)
    requires p.Valid() && CanTake(p, n) && Whole(p) && IsItems(s)
    ensures Whole(Add(p, s, n))
    decreases |p.frames|
  {
    hide IsItems, EncodeList;
    if p.frames == [] {
      ItemsConcat(p.top, s);
    } else {
      var last := |p.frames| - 1;
      var f := p.frames[last];
      ItemsConcat(f.payload, s);
      if n != 0 && f.remaining <= n {
        WholeKept(p.(frames := p.frames[..last]), EncodeList(f.payload + s), 1);
      }
    }
  }

  /** So does opening a list. */
  lemma OpenWhole(p: Progress, n: nat)
    requires p.Valid() && Whole(p)
    ensures Whole(Open(p, n))
  {
    hide IsItems, EncodeList;
    NoItems();
    if n == 0 {
      var none: Bytes := [];
      ItemsConcat(none, none);
      assert none + none == none;
      WholeKept(p, EncodeList([]), 1);
    }
  }

  lemma NoItems()
    ensures IsItems([])
  {
    assert EncodeAll([]) == [];
  }

  // ----- The bytes -----

  /** The output and the stack of (remaining count, offset) pairs stand for `p`: behind the
      offset of each open list is what was appended to it, and nothing else. */
  ghost predicate Stands(out: Bytes, stack: seq<(nat, nat)>, p: Progress)
    decreases |stack|
  {
    |stack| == |p.frames| &&
    if stack == [] then out == p.top
    else
      var n := |stack| - 1;
      var (remaining, offset) := stack[n];
      && remaining == p.frames[n].remaining > 0
      && offset <= |out|
      && out[offset..] == p.frames[n].payload
      && Stands(out[..offset], stack[..n], p.(frames := p.frames[..n]))
  }

  /** Offsets never decrease along the stack, and lie inside the output. */
  lemma {:induction false} OffsetsOrdered(out: Bytes, stack: seq<(nat, nat)>, p: Progress)
    requires Stands(out, stack, p)
    ensures p.Valid()
    ensures forall i | 0 <= i < |stack| :: stack[i].1 <= |out|
    ensures forall i, j | 0 <= i < j < |stack| :: stack[i].1 <= stack[j].1
    decreases |stack|
  {
    if stack != [] {
      var n := |stack| - 1;
      var q := p.(frames := p.frames[..n]);
      OffsetsOrdered(out[..stack[n].1], stack[..n], q);
      forall i | 0 <= i < |p.frames| ensures p.frames[i].remaining > 0 {
        if i < n { assert q.frames[i] == p.frames[i]; }
      }
      forall i | 0 <= i < |stack| ensures stack[i].1 <= stack[n].1 {
        if i < n { assert stack[..n][i] == stack[i]; }
      }
      forall i, j | 0 <= i < j < |stack| ensures stack[i].1 <= stack[j].1 {
        if j < n { assert stack[..n][i] == stack[i] && stack[..n][j] == stack[j]; }
      }
    }
  }

  ghost function Innermost(p: Progress): Frame
    requires p.frames != []
  {
    p.frames[|p.frames| - 1]
  }

  ghost function Outer(p: Progress): Progress
    requires p.frames != []
  {
    p.(frames := p.frames[..|p.frames| - 1])
  }

  lemma StandsInside(out: Bytes, stack: seq<(nat, nat)>, p: Progress)
    requires Stands(out, stack, p) && stack != []
    ensures |stack| == |p.frames| && stack[|stack| - 1].1 <= |out|
    ensures stack[|stack| - 1].0 == Innermost(p).remaining
    ensures var offset := stack[|stack| - 1].1;
      && out[offset..] == Innermost(p).payload
      && Stands(out[..offset], stack[..|stack| - 1], Outer(p))
  {
  }

  /** Some, but not all, of the items that the innermost list expects. */
  lemma PartOfList(base: Bytes, stack: seq<(nat, nat)>, p: Progress, s: Bytes, k: nat)
    requires Stands(base, stack, p) && stack != []
    requires |p.frames| == |stack| && k < Innermost(p).remaining
    ensures var n := |stack| - 1;
      var f := Innermost(p);
      && Stands(base + s, stack[..n] + [(f.remaining - k, stack[n].1)],
                p.(frames := p.frames[..n] + [Frame(f.remaining - k, f.payload + s)]))
  {
    var n, f := |stack| - 1, Innermost(p);
    var offset := stack[n].1;
    var out := base + s;
    var stack' := stack[..n] + [(f.remaining - k, offset)];
    var p' := p.(frames := p.frames[..n] + [Frame(f.remaining - k, f.payload + s)]);
    assert out[offset..] == base[offset..] + s;
    assert out[..offset] == base[..offset];
    assert stack'[..n] == stack[..n];
    assert p'.(frames := p'.frames[..n]) == p.(frames := p.frames[..n]);
  }

  /** All that the innermost list expects: it is wrapped, and becomes one item of the next. */
  lemma RestOfList(base: Bytes, stack: seq<(nat, nat)>, p: Progress, s: Bytes)
    requires Stands(base, stack, p) && stack != [] && |p.frames| == |stack|
    ensures var n := |stack| - 1;
      var offset := stack[n].1;
      var out := base + s;
      && offset <= |base|
      && Stands(base[..offset], stack[..n], Outer(p))
      && out[..offset] + EncodeList(out[offset..]) == base[..offset] + EncodeList(Innermost(p).payload + s)
  {
    hide *;
    StandsInside(base, stack, p);
    Tail(base, s, stack[|stack| - 1].1);
  }

  lemma Tail(base: Bytes, tail: Bytes, offset: nat)
    requires offset <= |base|
    ensures (base + tail)[offset..] == base[offset..] + tail
    ensures (base + tail)[..offset] == base[..offset]
  {
  }

  lemma Uncounted(base: Bytes, stack: seq<(nat, nat)>, p: Progress, s: Bytes)
    requires p.Valid() && Stands(base, stack, p)
    ensures Stands(base + s, stack, Add(p, s, 0))
  {
    if stack != [] {
      PartOfList(base, stack, p, s, 0);
      assert stack[..|stack| - 1] + [stack[|stack| - 1]] == stack;
    }
  }

  class RLPStream {
    var out: Bytes
    var listStack: seq<(nat, nat)>
    ghost var progress: Progress

    ghost predicate Valid()
      reads this
    {
      progress.Valid() && Stands(out, listStack, progress)
    }

    constructor ()
      ensures Valid() && progress == Progress([], []) && out == []
    {
      out, listStack, progress := [], [], Progress([], []);
    }

    /** The closing loop, run after the bytes `s` have been put at the end of the output. It
        fails when the innermost list expects fewer items. */
    method NoteAppended(itemCount0: nat, ghost before: Bytes, ghost s: Bytes) returns (ok: bool)
      requires progress.Valid() && Stands(before, listStack, progress) && out == before + s
      modifies this
      ensures ok <==> CanTake(old(progress), itemCount0)
      ensures ok ==> Valid() && progress == Add(old(progress), s, itemCount0)
    {
      hide EncodeList, Stands;
      var itemCount := itemCount0;
      if itemCount == 0 {
        Uncounted(before, listStack, progress, s);
        progress := Add(progress, s, 0);
        return true;
      }
      ghost var start, pending, base := progress, s, before;
      while |listStack| > 0
        invariant itemCount > 0
        invariant progress.Valid() && Stands(base, listStack, progress)
        invariant out == base + pending
        invariant CanTake(progress, itemCount) <==> CanTake(start, itemCount0)
        invariant CanTake(progress, itemCount) ==> Add(progress, pending, itemCount) == Add(start, s, itemCount0)
        decreases |listStack|
      {
        StandsInside(base, listStack, progress);
        var n := |listStack| - 1;
        var (first, p) := listStack[n];
        if first < itemCount {
          return false;
        }
        if first - itemCount != 0 {
          PartOfList(base, listStack, progress, pending, itemCount);
          progress := Add(progress, pending, itemCount);
          listStack := listStack[..n] + [(first - itemCount, p)];
          return true;
        }
        RestOfList(base, listStack, progress, pending);
        out := out[..p] + EncodeList(out[p..]);
        base := base[..p];
        listStack := listStack[..n];
        pending, progress := EncodeList(Innermost(progress).payload + pending), Outer(progress);
        itemCount := 1;
      }
      AtTop(base, progress, pending, itemCount);
      progress := Add(progress, pending, itemCount);
      return true;
    }

    /** Any bytes, announced as `itemCount` items. */
    method AppendRaw(s: Bytes, itemCount: nat) returns (ok: bool)
      requires Valid()
      modifies this
      ensures ok <==> CanTake(old(progress), itemCount)
      ensures ok ==> Valid() && progress == Add(old(progress), s, itemCount)
    {
      ghost var before := out;
      out := out + s;
      ok := NoteAppended(itemCount, before, s);
    }

    /** A byte string. */
    method Append(s: Bytes) returns (ok: bool)
      requires Valid()
      modifies this
      ensures ok && Valid() && progress == Add(old(progress), Encode(Str(s)), 1)
    {
      ghost var before := out;
      out := out + EncodeBytes(s);
      RoomForOne(progress);
      ok := NoteAppended(1, before, EncodeBytes(s));
    }

    /** An unsigned 128-bit integer, given by its halves: its shortest big-endian form. */
    method AppendU128(high: nat, low: nat) returns (ok: bool)
      requires Valid() && high < 0x1_0000_0000_0000_0000 && low < 0x1_0000_0000_0000_0000
      modifies this
      ensures ok && Valid()
      ensures progress == Add(old(progress), Encode(Str(BigEndian(high * 0x1_0000_0000_0000_0000 + low))), 1)
    {
      ok := Append(BigEndian(high * 0x1_0000_0000_0000_0000 + low));
    }

    /** A list whose payload is given. */
    method AppendListPayload(rlp: Bytes) returns (ok: bool)
      requires Valid()
      modifies this
      ensures ok && Valid() && progress == Add(old(progress), EncodeList(rlp), 1)
    {
      ghost var before := out;
      out := out + EncodeList(rlp);
      RoomForOne(progress);
      ok := NoteAppended(1, before, EncodeList(rlp));
    }

    /** Announces a list of `items` items. */
    method AppendList(items: nat) returns (ok: bool)
      requires Valid()
      modifies this
      ensures ok && Valid() && progress == Open(old(progress), items)
    {
      if items != 0 {
        OpenStands(out, listStack, progress, items);
        listStack := listStack + [(items, |out|)];
        progress := Open(progress, items);
        ok := true;
      } else {
        ok := AppendListPayload([]);
      }
    }

    /** Feeds an item with the operations above, lists by count and then item by item. */
    method Feed(x: Item)
      requires Valid()
      modifies this
      ensures Valid() && progress == Add(old(progress), Encode(x), 1)
      decreases x, 1
    {
      hide Stands, Add;
      match x {
        case Str(s) =>
          var ok := Append(s);
        case List(xs) =>
          ListEncoding(xs);
          hide Encode, EncodeList;
          var ok := AppendList(|xs|);
          if xs != [] {
            FillList(old(progress), [], xs);
            assert [] + EncodeAll(xs) == EncodeAll(xs);
          }
          FeedAll(xs);
      }
    }

    method FeedAll(xs: seq<Item>)
      requires Valid()
      modifies this
      ensures Valid() && progress == AddEach(old(progress), xs)
      decreases xs, 0
    {
      hide Stands, Encode;
      if xs != [] {
        Feed(xs[0]);
        FeedAll(xs[1..]);
      }
    }
  }

  lemma AtTop(base: Bytes, p: Progress, s: Bytes, n: nat)
    requires Stands(base, [], p)
    ensures p.frames == [] && p.Valid() && Stands(base + s, [], Add(p, s, n))
  {
  }

  lemma RoomForOne(p: Progress)
    requires p.Valid()
    ensures CanTake(p, 1)
  {
  }

  lemma OpenStands(out: Bytes, stack: seq<(nat, nat)>, p: Progress, n: nat)
    requires p.Valid() && Stands(out, stack, p) && n > 0
    ensures Stands(out, stack + [(n, |out|)], Open(p, n))
  {
    var p' := Open(p, n);
    var stack' := stack + [(n, |out|)];
    assert stack'[..|stack|] == stack;
    assert p'.(frames := p'.frames[..|stack|]) == p;
    assert out[..|out|] == out;
  }

  /** The purpose of the stream: whatever forest is fed to a new stream, no list stays open
      and the output is the concatenation of the encodings. */
  method Serialize(forest: seq<Item>) returns (out: Bytes)
    ensures out == EncodeAll(forest)
  {
    hide EncodeAll;
    var stream := new RLPStream();
    stream.FeedAll(forest);
    AddEachAtTop(Progress([], []), forest);
    assert [] + EncodeAll(forest) == EncodeAll(forest);
    out := stream.out;
  }

  /** Where what follows offset i ends: at the next offset, or at the end of the output. */
  function SegmentEnd(out: Bytes, stack: seq<(nat, nat)>, i: nat): nat {
    if i < |stack| then stack[i].1 else |out|
  }

  /** What lies between offset i and the next one. */
  ghost predicate Segment(out: Bytes, stack: seq<(nat, nat)>, i: nat, payload: Bytes) {
    && i < |stack| && stack[i].1 <= SegmentEnd(out, stack, i + 1) <= |out|
    && out[stack[i].1..SegmentEnd(out, stack, i + 1)] == payload
  }

  lemma InnerSegment(out: Bytes, stack: seq<(nat, nat)>, i: nat, payload: Bytes)
    requires stack != [] && stack[|stack| - 1].1 <= |out|
    requires Segment(out[..stack[|stack| - 1].1], stack[..|stack| - 1], i, payload)
    ensures Segment(out, stack, i, payload)
  {
    var n := |stack| - 1;
    var before := out[..stack[n].1];
    assert stack[..n][i] == stack[i];
    assert SegmentEnd(before, stack[..n], i + 1) == SegmentEnd(out, stack, i + 1);
    assert before[stack[i].1..SegmentEnd(out, stack, i + 1)] == out[stack[i].1..SegmentEnd(out, stack, i + 1)];
  }

  /** In every state the offsets cut the output into what is complete and what belongs to each
      open list. */
  lemma {:induction false} Segments(out: Bytes, stack: seq<(nat, nat)>, p: Progress)
    requires Stands(out, stack, p)
    ensures |stack| == |p.frames| && SegmentEnd(out, stack, 0) <= |out| && out[..SegmentEnd(out, stack, 0)] == p.top
    ensures forall i | 0 <= i < |stack| :: Segment(out, stack, i, p.frames[i].payload)
    decreases |stack|
  {
    if stack == [] {
      assert out[..|out|] == out;
    } else {
      StandsInside(out, stack, p);
      var n := |stack| - 1;
      var before, q := out[..stack[n].1], Outer(p);
      Segments(before, stack[..n], q);
      hide Stands, Segment;
      forall i | 0 <= i < n ensures Segment(out, stack, i, p.frames[i].payload) {
        assert q.frames[i] == p.frames[i];
        InnerSegment(out, stack, i, p.frames[i].payload);
      }
      LastSegment(out, stack, Innermost(p).payload);
      assert SegmentEnd(before, stack[..n], 0) == SegmentEnd(out, stack, 0);
      assert before[..SegmentEnd(out, stack, 0)] == out[..SegmentEnd(out, stack, 0)];
    }
  }

  lemma LastSegment(out: Bytes, stack: seq<(nat, nat)>, payload: Bytes)
    requires stack != [] && stack[|stack| - 1].1 <= |out| && out[stack[|stack| - 1].1..] == payload
    ensures Segment(out, stack, |stack| - 1, payload)
  {
    assert out[stack[|stack| - 1].1..|out|] == payload;
  }

  /** When only complete items were appended, each of these parts is the concatenation of their
      encodings; with an empty stack, so is the whole output. */
  lemma CompleteItems(out: Bytes, stack: seq<(nat, nat)>, p: Progress)
    requires Stands(out, stack, p) && Whole(p)
    ensures SegmentEnd(out, stack, 0) <= |out| && IsItems(out[..SegmentEnd(out, stack, 0)])
    ensures |stack| == |p.frames|
    ensures forall i | 0 <= i < |stack| ::
      Segment(out, stack, i, p.frames[i].payload) && IsItems(p.frames[i].payload)
    ensures stack == [] ==> IsItems(out)
  {
    hide IsItems, Stands, Segment;
    Segments(out, stack, p);
    if stack == [] { assert out[..|out|] == out; }
  }
}
