/** Walking over the items of an encoded list: `items`, the iterator and `operator[]`. */
module RlpList {
  import opened Rlp
  import opened RlpReader

  // ----- The items of a payload -----

  /** The data is a canonical list of these items, followed by `rest`. */
  ghost predicate IsListOf(d: Bytes, xs: seq<Item>, rest: Bytes) {
    d == EncodeList(EncodeAll(xs)) + rest && |EncodeAll(xs)| < 0x1_0000_0000 - 0x101
  }

  lemma ItemStarts(x: Item, rest: Bytes)
    requires |Encode(x)| < 0x1_0000_0000 - 0x101
    ensures |Encode(x)| >= 1
    ensures SizeAsEncoded(Encode(x) + rest) == Ok(|Encode(x)|)
  {
    hide EncodeBytes, EncodeList, EncodeAll;
    EncodedIs(x);
    match x {
      case Str(b) => EncodedLonger(false, b); ReadEncoded(false, b, rest);
      case List(xs) => EncodedLonger(true, EncodeAll(xs)); ReadEncoded(true, EncodeAll(xs), rest);
    }
  }

  lemma EncodedLonger(list: bool, payload: Bytes)
    ensures |payload| <= |Encoded(list, payload)| && |Encoded(list, payload)| >= 1
  {
  }

  lemma ListStarts(d: Bytes, xs: seq<Item>, rest: Bytes)
    requires IsListOf(d, xs, rest)
    ensures Starts(d, true, EncodeAll(xs), |d| - |rest|)
  {
    hide EncodeAll, EncodeList;
    ReadEncoded(true, EncodeAll(xs), rest);
  }

  /** Where item k begins in the payload. */
  ghost function Offset(xs: seq<Item>, k: nat): nat
    requires k <= |xs|
  {
    |EncodeAll(xs[..k])|
  }

  lemma {:induction false} OffsetStep(xs: seq<Item>, k: nat)
    requires k < |xs|
    ensures Offset(xs, k + 1) == Offset(xs, k) + |Encode(xs[k])| <= |EncodeAll(xs)|
    ensures EncodeAll(xs)[Offset(xs, k)..] == Encode(xs[k]) + EncodeAll(xs[k + 1..])
  {
    hide EncodeAll;
    assert xs[..k + 1] == xs[..k] + [xs[k]];
    EncodeAllConcat(xs[..k], [xs[k]]);
    EncodeAllOne(xs[k]);
    assert xs == xs[..k] + xs[k..];
    EncodeAllConcat(xs[..k], xs[k..]);
    assert xs[k..] == [xs[k]] + xs[k + 1..];
    EncodeAllConcat([xs[k]], xs[k + 1..]);
  }

  lemma OffsetEnds(xs: seq<Item>)
    ensures Offset(xs, 0) == 0 && Offset(xs, |xs|) == |EncodeAll(xs)|
  {
    assert xs[..0] == [] && xs[..|xs|] == xs;
  }

  /** Counting by jumping from item to item. */
  function Count(d: Bytes): Result<nat>
    decreases |d|
  {
    if d == [] then Ok(0)
    else
      match SizeAsEncoded(d)
      case Throw => Throw
      case Ok(n) =>
        SizePositive(d);
        match Count(d[n..])
        case Throw => Throw
        case Ok(c) => Ok(c + 1)
  }

  lemma SizePositive(d: Bytes)
    requires d != [] && SizeAsEncoded(d).Ok?
    ensures 1 <= SizeAsEncoded(d).value <= |d|
  {
  }

  lemma {:induction false} CountAll(xs: seq<Item>)
    requires |EncodeAll(xs)| < 0x1_0000_0000 - 0x101
    ensures Count(EncodeAll(xs)) == Ok(|xs|)
  {
    hide Encode, SizeAsEncoded;
    if xs != [] {
      var e, rest := Encode(xs[0]), EncodeAll(xs[1..]);
      ItemStarts(xs[0], rest);
      assert (e + rest)[|e|..] == rest;
      CountAll(xs[1..]);
    }
  }

  /** `items()`: zero for anything but a list. */
  method Items(d: Bytes) returns (r: Result<nat>)
    ensures !IsList(d) ==> r == Ok(0)
    ensures IsList(d) ==> match Payload(d)
      case Throw => r.Throw?
      case Ok(payload) => r == Count(payload)
  {
    hide Payload, SizeAsEncoded;
    if !IsList(d) { return Ok(0); }
    match Payload(d) {
      case Throw => r := Throw;
      case Ok(payload) =>
        var rest, i := payload, 0;
        while rest != []
          invariant Count(payload) == match Count(rest)
            case Throw => Throw
            case Ok(c) => Ok(c + i)
          decreases |rest|
        {
          match SizeAsEncoded(rest) {
            case Throw => return Throw;
            case Ok(n) =>
              SizePositive(rest);
              rest := rest[n..];
          }
          i := i + 1;
        }
        r := Ok(i);
    }
  }

  /** The count of a canonical list is the number of items that were written. */
  lemma ItemsOfList(d: Bytes, xs: seq<Item>, rest: Bytes)
    requires IsListOf(d, xs, rest)
    ensures IsList(d) && Payload(d) == Ok(EncodeAll(xs)) && Count(EncodeAll(xs)) == Ok(|xs|)
  {
    hide EncodeAll, EncodeList;
    ListStarts(d, xs, rest);
    CountAll(xs);
  }

  // ----- References into the data -----

  /** A `vector_ref`: nothing, or a stretch of the data. */
  datatype Ref = Null | View(start: nat, count: nat) {
    function Size(): nat { if Null? then 0 else count }

    function Cropped(begin: nat, n: nat): Ref {
      if View? && begin + n <= count then View(start + begin, n) else Null
    }

    function CroppedFrom(begin: nat): Ref {
      if View? && begin <= count then View(start + begin, count - begin) else Null
    }

    /** The pointer just behind. */
    function NextStart(): nat { if Null? then 0 else start + count }

    predicate In(d: Bytes) { View? ==> start + count <= |d| }

    function Of(d: Bytes): Bytes
      requires In(d)
    {
      if Null? then [] else d[start..start + count]
    }
  }

  function Whole(d: Bytes): Ref { View(0, |d|) }

  /** `payload()` as a reference. */
  function PayloadRef(d: Bytes): Result<Ref> {
    match Length(d)
    case Throw => Throw
    case Ok(n) => if n > |d| then Throw else Ok(Whole(d).Cropped(PayloadOffset(d), n))
  }

  lemma PayloadRefOfList(d: Bytes, xs: seq<Item>, rest: Bytes)
    requires IsListOf(d, xs, rest)
    ensures PayloadRef(d) == Ok(View(PayloadOffset(d), |EncodeAll(xs)|))
    ensures PayloadOffset(d) + |EncodeAll(xs)| == |d| - |rest|
    ensures IsList(d) && d[PayloadOffset(d)..|d| - |rest|] == EncodeAll(xs)
  {
    hide EncodeAll, EncodeList, Length, PayloadOffset;
    ListStarts(d, xs, rest);
  }

  /** From the start of item k, the data up to the end of the list are the items from k on. */
  lemma ItemAt(d: Bytes, xs: seq<Item>, rest: Bytes, k: nat)
    requires IsListOf(d, xs, rest) && k < |xs|
    ensures var start := PayloadOffset(d) + Offset(xs, k);
      var end := |d| - |rest|;
      && start < end <= |d| && PayloadOffset(d) + |EncodeAll(xs)| == end
      && SizeAsEncoded(d[start..end]) == Ok(|Encode(xs[k])|)
      && 1 <= |Encode(xs[k])| <= end - start
      && d[start..start + |Encode(xs[k])|] == Encode(xs[k])
  {
    hide EncodeAll, EncodeList, Encode, PayloadOffset, Offset, SizeAsEncoded;
    PayloadRefOfList(d, xs, rest);
    OffsetStep(xs, k);
    var payload, h, end := EncodeAll(xs), PayloadOffset(d), |d| - |rest|;
    var e, tail := Encode(xs[k]), EncodeAll(xs[k + 1..]);
    ItemStarts(xs[k], tail);
    assert d[h + Offset(xs, k)..end] == d[h..end][Offset(xs, k)..] == e + tail;
    assert d[h + Offset(xs, k)..h + Offset(xs, k) + |e|] == (e + tail)[..|e|] == e;
  }

  // ----- The iterator -----

  /** Iterator fields that stand at item k of the list, or behind the last one. */
  ghost predicate AtItem(d: Bytes, xs: seq<Item>, k: nat, current: Ref, remaining: nat) {
    k <= |xs| &&
    if k < |xs| then
      && current == View(PayloadOffset(d) + Offset(xs, k), |Encode(xs[k])|)
      && remaining == |EncodeAll(xs)| - Offset(xs, k + 1)
    else
      current == View(PayloadOffset(d) + |EncodeAll(xs)|, 0) && remaining == 0
  }

  /** What a rescan from a payload position delivers. */
  ghost predicate Scanned(d: Bytes, tail: Ref, current: Ref, remaining: nat) {
    && tail.In(d)
    && match SizeAsEncoded(tail.Of(d))
       case Throw => false
       case Ok(n) => current == tail.Cropped(0, n) && remaining == tail.Size() - current.Size()
  }

  /** Scanning from the start of item k stands at item k. */
  lemma ScanStandsAt(d: Bytes, xs: seq<Item>, rest: Bytes, k: nat, tail: Ref, current: Ref, remaining: nat)
    requires IsListOf(d, xs, rest) && k <= |xs|
    requires PayloadOffset(d) + Offset(xs, k) <= |d| - |rest|
    requires tail == View(PayloadOffset(d) + Offset(xs, k), |d| - |rest| - (PayloadOffset(d) + Offset(xs, k)))
    requires Scanned(d, tail, current, remaining)
    ensures AtItem(d, xs, k, current, remaining)
  {
    hide EncodeAll, EncodeList, Encode, SizeAsEncoded, PayloadOffset, Offset;
    PayloadRefOfList(d, xs, rest);
    OffsetEnds(xs);
    if k < |xs| {
      ItemAt(d, xs, rest, k);
      OffsetStep(xs, k);
    } else {
      assert tail.Of(d) == [];
      EmptySize();
    }
  }

  lemma EmptySize()
    ensures SizeAsEncoded([]) == Ok(0)
  {
  }

  /** On a canonical list the scan of what is left never throws. */
  lemma TailReadable(d: Bytes, xs: seq<Item>, rest: Bytes, k: nat)
    requires IsListOf(d, xs, rest) && k <= |xs|
    ensures var start := PayloadOffset(d) + Offset(xs, k);
      start <= |d| - |rest| && SizeAsEncoded(d[start..|d| - |rest|]).Ok?
  {
    hide EncodeAll, EncodeList, Encode, SizeAsEncoded, PayloadOffset, Offset;
    PayloadRefOfList(d, xs, rest);
    OffsetEnds(xs);
    if k < |xs| {
      ItemAt(d, xs, rest, k);
    } else {
      assert d[PayloadOffset(d) + Offset(xs, k)..|d| - |rest|] == [];
      EmptySize();
    }
  }

  class Iterator {
    const data: Bytes
    var remaining: nat
    var current: Ref

    constructor (data: Bytes)
      ensures this.data == data && Ok()
    {
      this.data := data;
      remaining, current := 0, Null;
    }

    /** What remains lies behind the current item, inside the data. */
    ghost predicate Ok()
      reads this
    {
      && current.In(data) && current.NextStart() + remaining <= |data|
      && (current.Null? ==> remaining == 0)
    }

    /** The two ways the source constructs an iterator; false when a check throws. */
    method Start(begin: bool) returns (ok: bool)
      modifies this
      ensures ok ==> Ok()
      ensures !(begin && IsList(data)) ==> ok && current == View(|data|, 0) && remaining == 0
      ensures begin && IsList(data) && ok ==>
        PayloadRef(data).Ok? && Scanned(data, PayloadRef(data).value, current, remaining)
      ensures begin && IsList(data) && !ok ==> match PayloadRef(data)
        case Throw => true
        case Ok(pl) => pl.In(data) && SizeAsEncoded(pl.Of(data)).Throw?
    {
      hide PayloadRef, SizeAsEncoded, Length, PayloadOffset;
      if begin && IsList(data) {
        match PayloadRef(data) {
          case Throw => return false;
          case Ok(pl) =>
            PayloadRefIn(data);
            match SizeAsEncoded(pl.Of(data)) {
              case Throw => return false;
              case Ok(n) =>
                SizeWithin(pl.Of(data));
                current := pl.Cropped(0, n);
                remaining := pl.Size() - current.Size();
            }
        }
      } else {
        current := Whole(data).CroppedFrom(|data|);
        remaining := 0;
      }
      ok := true;
    }

    /** `operator++` on any data; false when a check throws. */
    method Advance() returns (ok: bool)
      requires Ok()
      modifies this
      ensures ok ==> Ok()
      ensures Advanced(data, old(current), old(remaining), ok, current, remaining)
    {
      hide SizeAsEncoded;
      if remaining != 0 {
        var tail := View(current.NextStart(), remaining);
        match SizeAsEncoded(tail.Of(data)) {
          case Throw => return false;
          case Ok(n) =>
            SizeWithin(tail.Of(data));
            current := tail.Cropped(0, n);
            remaining := remaining - (if remaining <= current.Size() then remaining else current.Size());
        }
      } else if current.View? {
        current := View(current.NextStart(), 0);
      }
      ok := true;
    }
  }

  /** The iterator reads one item at the start of what remains, or fails as that reading does;
      with nothing left it stands behind its item. */
  ghost predicate Advanced(d: Bytes, current: Ref, remaining: nat, ok: bool, current': Ref, remaining': nat) {
    if remaining > 0 then
      var tail := View(current.NextStart(), remaining);
      && tail.In(d) && (ok <==> SizeAsEncoded(tail.Of(d)).Ok?)
      && (ok ==> Scanned(d, tail, current', remaining'))
    else
      ok && remaining' == 0 && current' == if current.Null? then Null else View(current.NextStart(), 0)
  }

  /** On a canonical list the iterator moves to the next item, and stays behind the last one. */
  lemma AdvancesToNext(d: Bytes, xs: seq<Item>, rest: Bytes, k: nat,
                       current: Ref, remaining: nat, ok: bool, current': Ref, remaining': nat)
    requires IsListOf(d, xs, rest) && AtItem(d, xs, k, current, remaining)
    requires Advanced(d, current, remaining, ok, current', remaining')
    ensures ok && AtItem(d, xs, if k < |xs| then k + 1 else k, current', remaining')
  {
    hide EncodeAll, EncodeList, Encode, SizeAsEncoded, PayloadOffset, Offset;
    PayloadRefOfList(d, xs, rest);
    OffsetEnds(xs);
    if k < |xs| { OffsetStep(xs, k); }
    if remaining != 0 {
      TailReadable(d, xs, rest, k + 1);
      ScanStandsAt(d, xs, rest, k + 1, View(current.NextStart(), remaining), current', remaining');
    } else if k < |xs| {
      LastItem(xs, k);
    }
  }

  /** Only behind the last item is nothing left. */
  lemma LastItem(xs: seq<Item>, k: nat)
    requires k < |xs| && Offset(xs, k + 1) == |EncodeAll(xs)|
    ensures k + 1 == |xs|
  {
    hide EncodeAll, Encode, Offset;
    if k + 1 < |xs| {
      OffsetStep(xs, k + 1);
      EncodeNonempty(xs[k + 1]);
    }
  }

  lemma EncodeNonempty(x: Item)
    ensures |Encode(x)| >= 1
  {
  }

  lemma SizeWithin(d: Bytes)
    requires SizeAsEncoded(d).Ok?
    ensures SizeAsEncoded(d).value <= |d|
  {
  }

  lemma PayloadRefIn(d: Bytes)
    requires PayloadRef(d).Ok?
    ensures PayloadRef(d).value.In(d)
  {
  }

  /** A started iterator stands at the first item. */
  lemma StartsAtFirst(d: Bytes, xs: seq<Item>, rest: Bytes, current: Ref, remaining: nat)
    requires IsListOf(d, xs, rest)
    requires PayloadRef(d).Ok? && Scanned(d, PayloadRef(d).value, current, remaining)
    ensures AtItem(d, xs, 0, current, remaining)
  {
    hide EncodeAll, EncodeList, Encode, SizeAsEncoded, PayloadOffset, Offset;
    PayloadRefOfList(d, xs, rest);
    OffsetEnds(xs);
    ScanStandsAt(d, xs, rest, 0, PayloadRef(d).value, current, remaining);
  }

  lemma StartDoesNotThrow(d: Bytes, xs: seq<Item>, rest: Bytes)
    requires IsListOf(d, xs, rest)
    ensures IsList(d) && PayloadRef(d).Ok? && PayloadRef(d).value.In(d)
    ensures SizeAsEncoded(PayloadRef(d).value.Of(d)).Ok?
  {
    hide EncodeAll, EncodeList, Encode, SizeAsEncoded, PayloadOffset, Offset;
    PayloadRefOfList(d, xs, rest);
    OffsetEnds(xs);
    TailReadable(d, xs, rest, 0);
  }

  /** The end test `it != end()` succeeds behind the last item exactly when nothing follows the
      list; an iterator over a list with bytes behind it never reaches the end. */
  lemma MeetsEnd(d: Bytes, xs: seq<Item>, rest: Bytes, k: nat, current: Ref, remaining: nat)
    requires IsListOf(d, xs, rest) && AtItem(d, xs, k, current, remaining)
    ensures current == View(|d|, 0) <==> k == |xs| && rest == []
  {
    hide EncodeAll, EncodeList, Encode, PayloadOffset, Offset;
    PayloadRefOfList(d, xs, rest);
    if k < |xs| { EncodeNonempty(xs[k]); }
  }

  /** The item that an iterator stands at. */
  lemma ItemRead(d: Bytes, xs: seq<Item>, rest: Bytes, k: nat, current: Ref, remaining: nat)
    requires IsListOf(d, xs, rest) && AtItem(d, xs, k, current, remaining) && k < |xs|
    ensures current.In(d) && current.Of(d) == Encode(xs[k])
  {
    hide EncodeAll, EncodeList, Encode, PayloadOffset, Offset;
    ItemAt(d, xs, rest, k);
  }

  /** A range-for over a list with nothing behind it visits each item once, in order. */
  method Visit(data: Bytes, ghost xs: seq<Item>) returns (visited: seq<Bytes>)
    requires IsListOf(data, xs, [])
    ensures |visited| == |xs| && forall i | 0 <= i < |xs| :: visited[i] == Encode(xs[i])
  {
    hide EncodeAll, EncodeList, Encode, SizeAsEncoded, PayloadOffset, Offset, PayloadRef, IsListOf;
    var it := new Iterator(data);
    var end := new Iterator(data);
    StartDoesNotThrow(data, xs, []);
    var ok := it.Start(true);
    StartsAtFirst(data, xs, [], it.current, it.remaining);
    ok := end.Start(false);
    visited := [];
    MeetsEnd(data, xs, [], 0, it.current, it.remaining);
    while it.current != end.current
      invariant it.data == data && end.data == data && end.current == View(|data|, 0) && it != end
      invariant it.Ok() && |visited| <= |xs| && AtItem(data, xs, |visited|, it.current, it.remaining)
      invariant forall i | 0 <= i < |visited| :: visited[i] == Encode(xs[i])
      invariant it.current == end.current <==> |visited| == |xs|
      decreases |xs| - |visited|
    {
      ghost var k := |visited|;
      ItemRead(data, xs, [], k, it.current, it.remaining);
      visited := visited + [it.current.Of(data)];
      ghost var current, remaining := it.current, it.remaining;
      ok := it.Advance();
      AdvancesToNext(data, xs, [], k, current, remaining, ok, it.current, it.remaining);
      MeetsEnd(data, xs, [], k + 1, it.current, it.remaining);
    }
  }

  // ----- operator[] -----

  /** The initial index of the cursor: the largest size_t. */
  const NO_INDEX: nat := 0xffff_ffff

  /** An item and where it ends in the payload. */
  datatype Spot = Spot(item: Ref, end: nat)

  /** Reading one item at a payload position. */
  ghost function ReadAt(d: Bytes, start: nat, tail: Ref): Result<Spot>
    requires tail.In(d)
  {
    match SizeAsEncoded(tail.Of(d))
    case Throw => Throw
    case Ok(n) => Ok(Spot(tail.Cropped(0, n), start + n))
  }

  /** A fresh scan from the start of the payload to index k, on any data: it stays at the first
      empty item, and throws where a check throws. */
  ghost function ScanTo(d: Bytes, k: nat): Result<Spot>
    decreases k
  {
    match PayloadRef(d)
    case Throw => Throw
    case Ok(payload) =>
      PayloadRefIn(d);
      if k == 0 then ReadAt(d, 0, payload)
      else
        match ScanTo(d, k - 1)
        case Throw => Throw
        case Ok(p) =>
          if p.item.Size() == 0 then Ok(p) else ReadAt(d, p.end, payload.CroppedFrom(p.end))
  }

  /** What the cursor describes: nothing yet, or where a fresh scan to its index arrives. */
  ghost predicate Cursor(d: Bytes, index: nat, end: nat, item: Ref) {
    (index == NO_INDEX && item == Null) || ScanTo(d, index) == Ok(Spot(item, end))
  }

  /** What a fresh scan answers. */
  ghost function Scanning(d: Bytes, i: nat): Result<Ref> {
    match ScanTo(d, i)
    case Throw => Throw
    case Ok(p) => Ok(p.item)
  }

  /** A scan that has thrown, or stopped at an empty item, comes to the same later. */
  lemma {:induction false} ScanSettled(d: Bytes, k: nat, i: nat)
    requires k <= i
    ensures ScanTo(d, k).Throw? ==> ScanTo(d, i).Throw?
    ensures ScanTo(d, k).Ok? && ScanTo(d, k).value.item.Size() == 0 ==> ScanTo(d, i) == ScanTo(d, k)
    decreases i - k
  {
    hide PayloadRef, ReadAt;
    if k < i { ScanSettled(d, k, i - 1); }
  }

  /** The scanned item lies in the data and passes the check for too little data. */
  lemma ScannedItem(d: Bytes, start: nat, tail: Ref)
    requires tail.In(d) && ReadAt(d, start, tail).Ok?
    ensures var item := ReadAt(d, start, tail).value.item;
      && item.In(d) && SizeAsEncoded(item.Of(d)) == Ok(item.Size())
      && ReadAt(d, start, tail).value.end == start + item.Size()
  {
    hide SizeAsEncoded;
    PrefixSize(tail.Of(d));
    var n := SizeAsEncoded(tail.Of(d)).value;
    if tail.View? {
      assert tail.Of(d)[..n] == tail.Cropped(0, n).Of(d);
    } else {
      EmptySize();
    }
  }

  lemma {:induction false} ScanChecked(d: Bytes, k: nat)
    requires ScanTo(d, k).Ok?
    ensures PayloadRef(d).Ok? && PayloadRef(d).value.In(d)
    ensures var item := ScanTo(d, k).value.item;
      item.In(d) && SizeAsEncoded(item.Of(d)) == Ok(item.Size())
    decreases k
  {
    hide PayloadRef, ReadAt, SizeAsEncoded;
    PayloadRefIn(d);
    var payload := PayloadRef(d).value;
    if k == 0 {
      ScannedItem(d, 0, payload);
    } else {
      ScanChecked(d, k - 1);
      var p := ScanTo(d, k - 1).value;
      if p.item.Size() != 0 { ScannedItem(d, p.end, payload.CroppedFrom(p.end)); }
    }
  }

  class RLP {
    const data: Bytes
    var lastIndex: nat
    var lastEnd: nat
    var lastItem: Ref

    constructor (data: Bytes)
      ensures this.data == data && Cursor(data, lastIndex, lastEnd, lastItem)
    {
      this.data := data;
      lastIndex, lastEnd, lastItem := NO_INDEX, 0, Null;
    }

    /** Whatever was asked before, and whatever the data, the answer is that of a fresh scan. The
        last step is the check of the constructor that makes an RLP of the item; it never fails. */
    method Index(i: nat) returns (r: Result<Ref>)
      requires i < 0x1_0000_0000 && Cursor(data, lastIndex, lastEnd, lastItem)
      modifies this
      ensures r.Ok? ==> Cursor(data, lastIndex, lastEnd, lastItem)
      ensures i < 0xffff_ffff ==> r == Scanning(data, i)
    {
      hide PayloadRef, SizeAsEncoded, Ref.Of, Ref.In;
      if i < lastIndex {
        ScanSettled(data, 0, i);
        match PayloadRef(data) {
          case Throw => return Throw;
          case Ok(payload) =>
            PayloadRefIn(data);
            match SizeAsEncoded(payload.Of(data)) {
              case Throw => return Throw;
              case Ok(n) =>
                lastEnd := n;
                lastItem := payload.Cropped(0, n);
                lastIndex := 0;
            }
        }
      }
      while lastIndex < i && lastItem.Size() != 0
        invariant Cursor(data, lastIndex, lastEnd, lastItem)
        invariant lastIndex <= i
        decreases i - lastIndex
      {
        ScanChecked(data, lastIndex);
        ScanSettled(data, lastIndex + 1, i);
        var tail := PayloadRef(data).value.CroppedFrom(lastEnd);
        CroppedIn(data, PayloadRef(data).value, lastEnd);
        match SizeAsEncoded(tail.Of(data)) {
          case Throw => return Throw;
          case Ok(n) =>
            ReadSize(data, lastEnd, tail);
            lastItem := tail.Cropped(0, n);
            lastEnd := lastEnd + lastItem.Size();
        }
        lastIndex := lastIndex + 1;
      }
      if lastIndex < i { ScanSettled(data, lastIndex, i); }
      NullItem(data);
      if lastItem != Null || lastIndex < NO_INDEX { ScanChecked(data, lastIndex); }
      match SizeAsEncoded(lastItem.Of(data)) {
        case Throw => r := Throw;
        case Ok(_) => r := Ok(lastItem);
      }
    }
  }

  lemma CroppedIn(d: Bytes, payload: Ref, begin: nat)
    requires payload.In(d)
    ensures payload.CroppedFrom(begin).In(d)
  {
  }

  lemma ReadSize(d: Bytes, start: nat, tail: Ref)
    requires tail.In(d) && ReadAt(d, start, tail).Ok?
    ensures ReadAt(d, start, tail).value.end == start + ReadAt(d, start, tail).value.item.Size()
  {
    ScannedItem(d, start, tail);
  }

  lemma NullItem(d: Bytes)
    ensures Null.In(d) && SizeAsEncoded(Null.Of(d)) == Ok(0)
  {
    EmptySize();
  }

  // ----- operator[] on canonical lists -----

  /** The item of an index, or nothing past the end. */
  ghost function ItemBytes(xs: seq<Item>, i: nat): Bytes { if i < |xs| then Encode(xs[i]) else [] }

  /** Where the scan of a canonical list arrives. */
  ghost predicate SpotOf(d: Bytes, xs: seq<Item>, k: nat, p: Spot) {
    k <= |xs| &&
    if k < |xs| then p == Spot(View(PayloadOffset(d) + Offset(xs, k), |Encode(xs[k])|), Offset(xs, k + 1))
    else p.item.In(d) && p.item.Size() == 0 && p.end == |EncodeAll(xs)|
  }

  lemma ReadsSpot(d: Bytes, xs: seq<Item>, rest: Bytes, k: nat, tail: Ref)
    requires IsListOf(d, xs, rest) && k <= |xs| && Offset(xs, k) <= |EncodeAll(xs)|
    requires tail == View(PayloadOffset(d) + Offset(xs, k), |EncodeAll(xs)| - Offset(xs, k))
    ensures tail.In(d) && ReadAt(d, Offset(xs, k), tail).Ok?
    ensures SpotOf(d, xs, k, ReadAt(d, Offset(xs, k), tail).value)
  {
    hide EncodeAll, EncodeList, Encode, SizeAsEncoded, PayloadOffset, Offset;
    PayloadRefOfList(d, xs, rest);
    OffsetEnds(xs);
    TailReadable(d, xs, rest, k);
    var n := SizeAsEncoded(tail.Of(d)).value;
    SizeWithin(tail.Of(d));
    ScanStandsAt(d, xs, rest, k, tail, tail.Cropped(0, n), tail.Size() - n);
    if k < |xs| { OffsetStep(xs, k); }
  }

  lemma {:induction false} ScanOfList(d: Bytes, xs: seq<Item>, rest: Bytes, k: nat)
    requires IsListOf(d, xs, rest) && k <= |xs|
    ensures ScanTo(d, k).Ok? && SpotOf(d, xs, k, ScanTo(d, k).value)
    decreases k
  {
    hide EncodeAll, EncodeList, Encode, SizeAsEncoded, PayloadOffset, Offset, PayloadRef, ReadAt;
    PayloadRefOfList(d, xs, rest);
    OffsetEnds(xs);
    var payload := PayloadRef(d).value;
    if k == 0 {
      ReadsSpot(d, xs, rest, 0, payload);
    } else {
      ScanOfList(d, xs, rest, k - 1);
      EncodeNonempty(xs[k - 1]);
      OffsetStep(xs, k - 1);
      ReadsSpot(d, xs, rest, k, payload.CroppedFrom(Offset(xs, k)));
    }
  }

  /** On a canonical list `operator[]` answers with the item of the index, or nothing past the
      end: what the cursor answers, by the contract of `Index`. */
  lemma IndexOfList(d: Bytes, xs: seq<Item>, rest: Bytes, i: nat)
    requires IsListOf(d, xs, rest)
    ensures Scanning(d, i).Ok? && Scanning(d, i).value.In(d)
    ensures Scanning(d, i).value.Of(d) == ItemBytes(xs, i)
  {
    hide EncodeAll, EncodeList, Encode, SizeAsEncoded, PayloadOffset, Offset, PayloadRef, ScanTo;
    if i < |xs| {
      ScanOfList(d, xs, rest, i);
      ItemAt(d, xs, rest, i);
    } else {
      ScanOfList(d, xs, rest, |xs|);
      ScanSettled(d, |xs|, i);
    }
  }
}
