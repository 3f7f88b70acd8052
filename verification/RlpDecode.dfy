/** Reading data all the way down, with nothing but the reader's own checks: what is read back
    are the items that were written. */
module RlpDecode {
  import opened Rlp
  import opened RlpReader

  /** One item: a string is its payload, a list the items of its payload. */
  function Decode(d: Bytes): Result<Item>
    requires d != []
    decreases |d|, 1
  {
    match SizeAsEncoded(d)
    case Throw => Throw
    case Ok(_) =>
      match Payload(d)
      case Throw => Throw
      case Ok(payload) =>
        if !IsList(d) then Ok(Str(payload))
        else
          PayloadShorter(d);
          match DecodeAll(payload)
          case Throw => Throw
          case Ok(items) => Ok(List(items))
  }

  /** The items that the data consists of. */
  function DecodeAll(d: Bytes): Result<seq<Item>>
    decreases |d|, 2
  {
    if d == [] then Ok([])
    else
      match Decode(d)
      case Throw => Throw
      case Ok(x) =>
        SizePositive(d);
        match DecodeAll(d[SizeAsEncoded(d).value..])
        case Throw => Throw
        case Ok(xs) => Ok([x] + xs)
  }

  lemma PayloadShorter(d: Bytes)
    requires d != [] && IsList(d) && Payload(d).Ok?
    ensures |Payload(d).value| < |d|
  {
  }

  lemma SizePositive(d: Bytes)
    requires d != [] && SizeAsEncoded(d).Ok?
    ensures 1 <= SizeAsEncoded(d).value <= |d|
  {
  }

  // ----- Reading undoes writing -----

  lemma EncodedParts(list: bool, payload: Bytes)
    ensures 1 <= |Encoded(list, payload)| && |payload| <= |Encoded(list, payload)|
    ensures list ==> |payload| < |Encoded(list, payload)|
  {
  }

  lemma {:induction false} DecodeEncoded(x: Item, rest: Bytes)
    requires |Encode(x)| < 0x1_0000_0000 - 0x101
    ensures Encode(x) + rest != [] && Decode(Encode(x) + rest) == Ok(x)
    ensures SizeAsEncoded(Encode(x) + rest) == Ok(|Encode(x)|)
    decreases x, 1
  {
    hide EncodeBytes, EncodeList, EncodeAll, SizeAsEncoded, Payload;
    EncodedIs(x);
    var d := Encode(x) + rest;
    match x {
      case Str(b) =>
        EncodedParts(false, b);
        ReadEncoded(false, b, rest);
      case List(xs) =>
        EncodedParts(true, EncodeAll(xs));
        ReadEncoded(true, EncodeAll(xs), rest);
        DecodeEncodedAll(xs);
    }
  }

  /** Any items are recovered from their encoding. */
  lemma {:induction false} DecodeEncodedAll(xs: seq<Item>)
    requires |EncodeAll(xs)| < 0x1_0000_0000 - 0x101
    ensures DecodeAll(EncodeAll(xs)) == Ok(xs)
    decreases xs, 0
  {
    hide Encode, Decode, SizeAsEncoded;
    if xs != [] {
      var e, rest := Encode(xs[0]), EncodeAll(xs[1..]);
      DecodeEncoded(xs[0], rest);
      assert (e + rest)[|e|..] == rest;
      DecodeEncodedAll(xs[1..]);
      assert EncodeAll(xs) == e + rest && [xs[0]] + xs[1..] == xs;
    }
  }

  // ----- Writing undoes reading -----

  lemma PartsAreBytes(d: Bytes, a: nat, b: nat)
    requires AreBytes(d) && a <= b <= |d|
    ensures AreBytes(d[a..b])
  {
  }

  lemma {:induction false} EncodeDecoded(d: Bytes)
    requires d != [] && AreBytes(d) && Decode(d).Ok?
    ensures SizeAsEncoded(d).Ok? && SizeAsEncoded(d).value <= |d|
    ensures Encode(Decode(d).value) == d[..SizeAsEncoded(d).value]
    decreases |d|, 1
  {
    hide EncodeBytes, EncodeList, EncodeAll, SizeAsEncoded, DecodeAll;
    AcceptedIsCanonical(d);
    EncodedIs(Decode(d).value);
    if IsList(d) {
      var payload := Payload(d).value;
      PayloadShorter(d);
      PayloadBytes(d);
      EncodeDecodedAll(payload);
    }
  }

  lemma PayloadBytes(d: Bytes)
    requires AreBytes(d) && Payload(d).Ok?
    ensures AreBytes(Payload(d).value)
  {
    hide Length, PayloadOffset;
    var n := Length(d).value;
    if PayloadOffset(d) + n <= |d| { PartsAreBytes(d, PayloadOffset(d), PayloadOffset(d) + n); }
  }

  /** Data that can be read consists of the encodings of the items that are read, and of nothing
      else. */
  lemma {:induction false} EncodeDecodedAll(d: Bytes)
    requires AreBytes(d) && DecodeAll(d).Ok?
    ensures EncodeAll(DecodeAll(d).value) == d
    decreases |d|, 2
  {
    hide Encode, Decode, SizeAsEncoded;
    if d != [] {
      EncodeDecoded(d);
      var n := SizeAsEncoded(d).value;
      SizePositive(d);
      PartsAreBytes(d, n, |d|);
      EncodeDecodedAll(d[n..]);
      var x, xs := Decode(d).value, DecodeAll(d[n..]).value;
      assert ([x] + xs)[1..] == xs;
      assert d[..n] + d[n..] == d;
    }
  }

  /** Of all strings of bytes below the refused length, exactly the encoding of the items reads
      as these items. */
  lemma DecodeIsInverse(d: Bytes, xs: seq<Item>)
    requires AreBytes(d) && |d| < 0x1_0000_0000 - 0x101
    ensures DecodeAll(d) == Ok(xs) <==> d == EncodeAll(xs)
  {
    hide DecodeAll, EncodeAll;
    if DecodeAll(d) == Ok(xs) { EncodeDecodedAll(d); }
    if d == EncodeAll(xs) { DecodeEncodedAll(xs); }
  }

  /** No two items have one encoding. */
  lemma EncodeInjective(x: Item, y: Item)
    requires |Encode(x)| < 0x1_0000_0000 - 0x101 && Encode(x) == Encode(y)
    ensures x == y
  {
    hide Encode, Decode;
    DecodeEncoded(x, []);
    DecodeEncoded(y, []);
  }
}
