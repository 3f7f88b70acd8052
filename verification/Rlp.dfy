/** Recursive Length Prefix, Appendix B of the Ethereum Yellow Paper. */
module Rlp {

  /** Bytes are numbers below 256. */
  type Bytes = seq<nat>

  datatype Item = Str(bytes: Bytes) | List(items: seq<Item>)

  /** The shortest big-endian form; none at all for 0. */
  function BigEndian(n: nat): Bytes {
    if n == 0 then [] else BigEndian(n / 256) + [n % 256]
  }

  function FromBigEndian(s: Bytes): nat {
    if s == [] then 0 else 256 * FromBigEndian(s[..|s| - 1]) + s[|s| - 1]
  }

  /** The header of `len` payload bytes: `base` is 0x80 for strings and 0xc0 for lists. */
  function Header(base: nat, len: nat): Bytes {
    if len < 56 then [base + len] else [base + 55 + |BigEndian(len)|] + BigEndian(len)
  }

  function EncodeBytes(b: Bytes): Bytes {
    if |b| == 1 && b[0] < 0x80 then b else Header(0x80, |b|) + b
  }

  function EncodeList(payload: Bytes): Bytes { Header(0xc0, |payload|) + payload }

  function Encode(x: Item): Bytes
    decreases x, 1
  {
    match x
    case Str(b) => EncodeBytes(b)
    case List(xs) => EncodeList(EncodeAll(xs))
  }

  function EncodeAll(xs: seq<Item>): Bytes
    decreases xs, 0
  {
    if xs == [] then [] else Encode(xs[0]) + EncodeAll(xs[1..])
  }

  lemma {:induction false} EncodeAllConcat(xs: seq<Item>, ys: seq<Item>)
    ensures EncodeAll(xs + ys) == EncodeAll(xs) + EncodeAll(ys)
  {
    if xs == [] {
      assert xs + ys == ys;
    } else {
      assert (xs + ys)[1..] == xs[1..] + ys;
      EncodeAllConcat(xs[1..], ys);
    }
  }

  lemma EncodeAllOne(x: Item)
    ensures EncodeAll([x]) == Encode(x)
  {
    assert EncodeAll([x]) == Encode(x) + EncodeAll([]);
  }

  /** Examples of the standard: strings and single bytes. */
  lemma StringVectors()
    ensures Encode(Str([])) == [0x80] && Encode(Str([0x0f])) == [0x0f]
    ensures Encode(Str([0x80])) == [0x81, 0x80] && Encode(Str([4, 0])) == [0x82, 4, 0]
    ensures Encode(Str([99, 97, 116])) == [0x83, 99, 97, 116]
    ensures Encode(Str([100, 111, 103])) == [0x83, 100, 111, 103]
  {
  }

  /** A list of two strings, and empty lists inside one another. */
  lemma ListVectors()
    ensures Encode(List([])) == [0xc0]
    ensures Encode(List([Str([99, 97, 116]), Str([100, 111, 103])])) == [0xc8, 0x83, 99, 97, 116, 0x83, 100, 111, 103]
    ensures Encode(List([List([]), List([List([])])])) == [0xc3, 0xc0, 0xc1, 0xc0]
  {
    var cat, dog := Str([99, 97, 116]), Str([100, 111, 103]);
    StringVectors();
    hide EncodeAll, EncodeBytes;
    ListOf([]);
    assert EncodeAll([]) == [] by { EmptyEncoding(); }
    ListOf([List([])]);
    EncodeAllOne(List([]));
    EncodeAllTwo(cat, dog);
    ListOf([cat, dog]);
    EncodeAllTwo(List([]), List([List([])]));
    ListOf([List([]), List([List([])])]);
  }

  lemma EmptyEncoding()
    ensures EncodeAll([]) == []
  {
  }

  lemma ListOf(xs: seq<Item>)
    ensures Encode(List(xs)) == Header(0xc0, |EncodeAll(xs)|) + EncodeAll(xs)
  {
  }

  lemma EncodeAllTwo(x: Item, y: Item)
    ensures EncodeAll([x, y]) == Encode(x) + Encode(y)
  {
    hide Encode;
    assert [x, y][1..] == [y];
    EncodeAllOne(y);
  }

  lemma SmallBigEndian()
    ensures BigEndian(56) == [56] && BigEndian(1024) == [4, 0]
  {
    assert BigEndian(0) == [] && BigEndian(4) == [4];
  }

  /** Strings at the ends of the short form and beyond: the length in as few bytes as it takes. */
  lemma LongVectors(b: Bytes)
    ensures |b| == 55 ==> Encode(Str(b)) == [0xb7] + b
    ensures |b| == 56 ==> Encode(Str(b)) == [0xb8, 56] + b
    ensures |b| == 1024 ==> Encode(Str(b)) == [0xb9, 4, 0] + b
  {
    SmallBigEndian();
    hide BigEndian;
  }
}
