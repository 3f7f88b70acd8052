/** `RLP`: reading encoded data in place, with the checks that make the form canonical. */
module RlpReader {
  import opened Rlp

  /** `platon_throw` ends the call; otherwise a value is delivered. */
  datatype Result<T> = Throw | Ok(value: T)

  /** size_t has four bytes on the contract's machine. */
  const SIZE_BYTES: nat := 4
  /** numeric_limits<size_t>::max(); lengths from 0x100 below it on are refused. */
  const SIZE_MAX: nat := 0xffff_ffff

  ghost predicate AreBytes(s: Bytes) { forall i | 0 <= i < |s| :: s[i] < 256 }

  predicate IsSingleByte(d: Bytes) { d != [] && d[0] < 0x80 }
  predicate IsData(d: Bytes) { d != [] && d[0] < 0xc0 }
  predicate IsList(d: Bytes) { d != [] && d[0] >= 0xc0 }

  function LengthSize(d: Bytes): nat {
    if IsData(d) && d[0] > 0xb7 then d[0] - 0xb7
    else if IsList(d) && d[0] > 0xf7 then d[0] - 0xf7
    else 0
  }

  function PayloadOffset(d: Bytes): nat { if IsSingleByte(d) then 0 else 1 + LengthSize(d) }

  predicate Good(d: Bytes) { d != [] && (d[0] == 0x81 ==> |d| >= 2 && d[1] >= 0x80) }

  /** The length that a long header announces. */
  function LongLength(d: Bytes, size: nat): Result<nat>
    requires d != []
  {
    if |d| <= size then Throw
    else if |d| > 1 && d[1] == 0 then Throw
    else if size > SIZE_BYTES then Throw
    else
      var n := FromBigEndian(d[1..1 + size]);
      if n < 56 || n >= SIZE_MAX - 0x100 then Throw else Ok(n)
  }

  function Length(d: Bytes): Result<nat> {
    if d == [] then Ok(0)
    else if !Good(d) then Throw
    else if d[0] < 0x80 then Ok(1)
    else if d[0] <= 0xb7 then Ok(d[0] - 0x80)
    else if d[0] < 0xc0 then LongLength(d, d[0] - 0xb7)
    else if d[0] <= 0xf7 then Ok(d[0] - 0xc0)
    else LongLength(d, d[0] - 0xf7)
  }

  function ActualSize(d: Bytes): Result<nat> {
    if d == [] then Ok(0)
    else if IsSingleByte(d) then Ok(1)
    else
      match Length(d)
      case Throw => Throw
      case Ok(n) => Ok(PayloadOffset(d) + n)
  }

  /** The payload; nothing when it does not lie inside the data. */
  function Payload(d: Bytes): Result<Bytes> {
    match Length(d)
    case Throw => Throw
    case Ok(n) =>
      if n > |d| then Throw
      else if PayloadOffset(d) + n <= |d| then Ok(d[PayloadOffset(d)..PayloadOffset(d) + n])
      else Ok([])
  }

  function SizeAsEncoded(d: Bytes): Result<nat> {
    match ActualSize(d)
    case Throw => Throw
    case Ok(n) => if n > |d| then Throw else Ok(n)
  }

  // ----- Big-endian numbers -----

  lemma {:induction false} BigEndianInverse(n: nat)
    ensures FromBigEndian(BigEndian(n)) == n && AreBytes(BigEndian(n))
    ensures n > 0 ==> |BigEndian(n)| > 0 && BigEndian(n)[0] != 0
  {
    if n > 0 {
      var s := BigEndian(n / 256);
      BigEndianInverse(n / 256);
      assert (s + [n % 256])[..|s|] == s;
    }
  }

  lemma {:induction false} FromBigEndianInverse(s: Bytes)
    requires AreBytes(s) && (s != [] ==> s[0] != 0)
    ensures BigEndian(FromBigEndian(s)) == s
    ensures s != [] ==> FromBigEndian(s) > 0
  {
    if s != [] {
      var t, last := s[..|s| - 1], s[|s| - 1];
      FromBigEndianInverse(t);
      assert last < 256;
      var n := FromBigEndian(s);
      assert n / 256 == FromBigEndian(t) && n % 256 == last;
      assert t == [] ==> FromBigEndian(t) == 0;
      assert t + [last] == s;
    }
  }

  lemma BigEndianSize(n: nat)
    ensures n < 0x1_0000_0000 <==> |BigEndian(n)| <= 4
    ensures n < 0x1_0000_0000_0000_0000 <==> |BigEndian(n)| <= 8
  {
    hide BigEndian;
    assert Power256(4) == 0x1_0000_0000;
    assert Power256(6) == 0x1_0000_0000_0000;
    BigEndianBound(n, 4);
    BigEndianBound(n, 8);
  }

  function Power256(k: nat): nat { if k == 0 then 1 else 256 * Power256(k - 1) }

  lemma {:induction false} BigEndianBound(n: nat, k: nat)
    ensures n < Power256(k) <==> |BigEndian(n)| <= k
    ensures Power256(k) > 0
  {
    if k > 0 {
      BigEndianBound(n / 256, k - 1);
    }
  }

  /** The byte loop of `length`, on four-byte words: `ret << 8` drops nothing. */
  method AccumulateLength(d: Bytes, size: nat) returns (ret: nat)
    requires AreBytes(d) && size < |d| && size <= 4
    ensures ret == FromBigEndian(d[1..1 + size])
  {
    hide Power256;
    ret := 0;
    Word256();
    for i := 0 to size
      invariant ret == FromBigEndian(d[1..1 + i]) && ret < Power256(i)
    {
      PowerGrows(i);
      var byte := d[i + 1];
      assert byte < 256;
      assert d[1..1 + (i + 1)][..i] == d[1..1 + i];
      ret := (ret * 256) % 0x1_0000_0000 + byte;
    }
  }

  lemma Word256()
    ensures Power256(0) == 1
  {
  }

  lemma PowerGrows(i: nat)
    requires i < 4
    ensures Power256(i + 1) == 256 * Power256(i) <= 0x1_0000_0000
  {
    assert Power256(4) == 0x1_0000_0000;
  }

  // ----- The reader undoes the writer -----

  /** What the encoder writes for `payload`: the header of a string or list, then the payload. */
  ghost function Encoded(list: bool, payload: Bytes): Bytes {
    if list then EncodeList(payload) else EncodeBytes(payload)
  }

  lemma EncodedIs(x: Item)
    ensures Encode(x) == match x
      case Str(b) => Encoded(false, b)
      case List(xs) => Encoded(true, EncodeAll(xs))
  {
  }

  /** The long header that the encoder writes is read back, or refused for its size. */
  lemma ReadLongHeader(base: nat, len: nat, rest: Bytes)
    requires 56 <= len < 0x1_0000_0000_0000_0000
    ensures var b := BigEndian(len);
      var d := [base + 55 + |b|] + b + rest;
      && 1 <= |b| <= 8
      && LongLength(d, |b|) == if len < 0x1_0000_0000 - 0x101 then Ok(len) else Throw
  {
    hide BigEndian, FromBigEndian;
    var b := BigEndian(len);
    var d := [base + 55 + |b|] + b + rest;
    BigEndianInverse(len);
    BigEndianSize(len);
    assert d[1] == b[0];
    assert d[1..1 + |b|] == b;
  }

  /** The data starts with an item of this size and payload. */
  ghost predicate Starts(d: Bytes, list: bool, payload: Bytes, size: nat) {
    && d != [] && (IsList(d) <==> list)
    && ActualSize(d) == Ok(size) && SizeAsEncoded(d) == Ok(size)
    && Payload(d) == Ok(payload)
    && PayloadOffset(d) + |payload| == size
  }

  lemma StartsWithHeader(d: Bytes, h: Bytes, payload: Bytes, rest: Bytes)
    requires d == h + payload + rest && d != [] && d[0] >= 0x80
    requires Length(d) == Ok(|payload|) && PayloadOffset(d) == |h|
    ensures Starts(d, IsList(d), payload, |h| + |payload|)
  {
    hide Length, PayloadOffset;
    assert d[|h|..|h| + |payload|] == payload;
  }

  lemma ReadShort(base: nat, payload: Bytes, rest: Bytes)
    requires (base == 0x80 || base == 0xc0) && |payload| < 56
    requires base == 0x80 && |payload| == 1 ==> payload[0] >= 0x80
    ensures Starts([base + |payload|] + payload + rest, base == 0xc0, payload, 1 + |payload|)
  {
    hide LongLength;
    var d := [base + |payload|] + payload + rest;
    assert d[0] == base + |payload|;
    assert base == 0x80 && |payload| == 1 ==> d[1] == payload[0];
    StartsWithHeader(d, [base + |payload|], payload, rest);
  }

  lemma ReadLong(base: nat, payload: Bytes, rest: Bytes)
    requires (base == 0x80 || base == 0xc0) && 56 <= |payload| < 0x1_0000_0000_0000_0000
    ensures var h := Header(base, |payload|);
      var d := h + payload + rest;
      d != [] && (IsList(d) <==> base == 0xc0) &&
      if |payload| < 0x1_0000_0000 - 0x101 then Starts(d, base == 0xc0, payload, |h| + |payload|)
      else ActualSize(d).Throw?
  {
    hide BigEndian, FromBigEndian, LongLength;
    var b, h := BigEndian(|payload|), Header(base, |payload|);
    var d := h + payload + rest;
    ReadLongHeader(base, |payload|, payload + rest);
    assert d == [base + 55 + |b|] + b + (payload + rest);
    if |payload| < 0x1_0000_0000 - 0x101 { StartsWithHeader(d, h, payload, rest); }
  }

  /** A canonical encoding, whatever follows it, has the size and payload that were written,
      exactly when the announced length is not refused. */
  lemma ReadEncoded(list: bool, payload: Bytes, rest: Bytes)
    requires |payload| < 0x1_0000_0000_0000_0000
    ensures var d := Encoded(list, payload) + rest;
      d != [] && (IsList(d) <==> list) &&
      if |payload| < 0x1_0000_0000 - 0x101 then Starts(d, list, payload, |Encoded(list, payload)|)
      else ActualSize(d).Throw?
  {
    hide BigEndian, LongLength, Starts;
    var base := if list then 0xc0 else 0x80;
    if !list && |payload| == 1 && payload[0] < 0x80 {
      ReadSingle(payload, rest);
    } else if |payload| < 56 {
      ReadShort(base, payload, rest);
    } else {
      ReadLong(base, payload, rest);
    }
  }

  lemma ReadSingle(payload: Bytes, rest: Bytes)
    requires |payload| == 1 && payload[0] < 0x80
    ensures Starts(payload + rest, false, payload, 1)
  {
    var d := payload + rest;
    assert d[0] == payload[0];
    assert d[0..1] == payload;
  }

  /** Conversely, what the reader accepts is what the encoder writes: an accepted header is
      the only one for its length, and no other string of bytes is accepted for the payload. */
  lemma AcceptedIsCanonical(d: Bytes)
    requires d != [] && AreBytes(d) && SizeAsEncoded(d).Ok?
    ensures Payload(d).Ok?
    ensures var n := SizeAsEncoded(d).value;
      n <= |d| && d[..n] == Encoded(IsList(d), Payload(d).value)
  {
    hide BigEndian, FromBigEndian, LongLength;
    var n := SizeAsEncoded(d).value;
    if IsSingleByte(d) {
      assert d[..1] == [d[0]] == d[0..1];
    } else {
      var size := LengthSize(d);
      var len := Length(d).value;
      var base := if IsList(d) then 0xc0 else 0x80;
      if size > 0 { AcceptedLongHeader(d, size, base); }
      assert size > 0 ==> d[..1 + size] == Header(base, len);
      assert size == 0 ==> d[..1] == [d[0]] == Header(base, len);
      var payload := d[1 + size..1 + size + len];
      assert d[..n] == d[..1 + size] + payload;
      assert Payload(d) == Ok(payload);
      assert d[..n] == Header(base, len) + payload;
    }
  }

  lemma AcceptedLongHeader(d: Bytes, size: nat, base: nat)
    requires d != [] && AreBytes(d) && 1 <= size && d[0] == base + 55 + size
    requires LongLength(d, size).Ok?
    ensures 56 <= LongLength(d, size).value
    ensures d[..1 + size] == Header(base, LongLength(d, size).value)
  {
    hide BigEndian, FromBigEndian;
    var b := d[1..1 + size];
    forall i | 0 <= i < |b| ensures b[i] < 256 { assert b[i] == d[1 + i]; }
    assert b[0] == d[1] != 0;
    FromBigEndianInverse(b);
    assert d[..1 + size] == [d[0]] + b;
  }

  /** Cut to its announced size, data announces the same size. */
  lemma PrefixSize(d: Bytes)
    requires SizeAsEncoded(d).Ok?
    ensures SizeAsEncoded(d).value <= |d|
    ensures SizeAsEncoded(d[..SizeAsEncoded(d).value]) == SizeAsEncoded(d)
  {
    hide FromBigEndian;
    var n := SizeAsEncoded(d).value;
    if d != [] && !IsSingleByte(d) {
      var size := LengthSize(d);
      assert n == 1 + size + Length(d).value;
      PrefixSlice(d, n, 1, 1 + size);
    }
  }

  lemma PrefixSlice(d: Bytes, n: nat, a: nat, b: nat)
    requires a <= b <= n <= |d|
    ensures d[..n][a..b] == d[a..b]
  {
  }

  // ----- Data that is cut off -----

  /** The header, with the byte behind 0x81 that decides whether it was needed. */
  function HeaderSize(list: bool, payload: Bytes): nat {
    if !list && |payload| == 1 then (if payload[0] < 0x80 then 1 else 2)
    else if |payload| < 56 then 1
    else 1 + |BigEndian(|payload|)|
  }

  /** An encoding that is cut off still announces its size as soon as its header is there, and its
      payload is empty, or refused when it is longer than all that is there. */
  lemma ReadTruncated(list: bool, payload: Bytes, k: nat)
    requires |payload| < 0x1_0000_0000 - 0x101 && 0 < k < |Encoded(list, payload)|
    ensures var e := Encoded(list, payload);
      var d := e[..k];
      && SizeAsEncoded(d).Throw? && (IsList(d) <==> list)
      && if k < HeaderSize(list, payload) then ActualSize(d).Throw?
         else ActualSize(d) == Ok(|e|) && Payload(d) == if |payload| > k then Throw else Ok([])
  {
    hide BigEndian, LongLength;
    var base := if list then 0xc0 else 0x80;
    var e := Encoded(list, payload);
    var d := e[..k];
    if |payload| < 56 {
      assert e == [base + |payload|] + payload;
      assert d[0] == base + |payload|;
      if k > 1 { assert d[1] == payload[0]; }
    } else {
      TruncatedLong(base, payload, k);
    }
  }

  lemma TruncatedLong(base: nat, payload: Bytes, k: nat)
    requires (base == 0x80 || base == 0xc0) && 56 <= |payload| < 0x1_0000_0000 - 0x101
    requires 0 < k < |Header(base, |payload|) + payload|
    ensures var h := Header(base, |payload|);
      var d := (h + payload)[..k];
      && d[0] == h[0] && |h| == 1 + LengthSize(d) && d[0] >= 0x80 && d[0] != 0x81
      && Length(d) == if k < |h| then Throw else Ok(|payload|)
  {
    hide BigEndian, FromBigEndian;
    var b, h := BigEndian(|payload|), Header(base, |payload|);
    var d := (h + payload)[..k];
    BigEndianSize(|payload|);
    if k >= |h| {
      assert d == h + payload[..k - |h|];
      ReadLongHeader(base, |payload|, payload[..k - |h|]);
    } else {
      BigEndianInverse(|payload|);
    }
  }

  /** The bytes that are missing, as zeros. */
  function Filled(d: Bytes, n: nat): (r: Bytes)
    ensures |r| == if n > |d| then n else |d|
  {
    d + seq(if n > |d| then n - |d| else 0, _ => 0)
  }

  /** Conversely, data that announces a size is the beginning of the encoding of some payload. */
  lemma AnnouncedIsCanonical(d: Bytes)
    requires d != [] && AreBytes(d) && ActualSize(d).Ok?
    ensures var n := ActualSize(d).value;
      var full := Filled(d, n);
      && Payload(full).Ok? && full[..n] == Encoded(IsList(d), Payload(full).value)
      && full[..|d|] == d && |Payload(full).value| < 0x1_0000_0000 - 0x101
  {
    hide BigEndian, FromBigEndian, EncodeBytes, EncodeList;
    var n := ActualSize(d).value;
    var full := Filled(d, n);
    var size := LengthSize(d);
    assert full[0] == d[0];
    if size > 0 { assert full[1..1 + size] == d[1..1 + size]; }
    assert SizeAsEncoded(full) == Ok(n);
    AcceptedIsCanonical(full);
  }
}
