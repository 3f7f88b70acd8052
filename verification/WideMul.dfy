/** The word-split products: the 64x64 and 128x128 bodies of `wideMultiply`, and
    `__mulddi3` / `__multi3`. Registers are naturals; every sum is truncated to its
    register, and the proofs show when the truncation loses nothing. */
module WideMul {
  import opened Bits
  import opened Products

  const W32: nat := 0x1_0000_0000
  const W64: nat := 0x1_0000_0000_0000_0000
  const W128: nat := 0x1_0000_0000_0000_0000_0000_0000_0000_0000

  function LoWord(a: nat): nat { And(a, 0xffff_ffff) }

  function HiWord(a: nat): nat { a / W32 }

  lemma Pow2At32()
    ensures Pow2(32) == W32
  {
    assert Pow2(8) == 0x100;
    ScalePow2(8, 8);
    assert Scale(0x100, 8) == 0x1_0000;
    ScalePow2(16, 16);
    assert Scale(0x1_0000, 16) == W32 by {
      ScaleScale(0x1_0000, 8, 8);
      assert Scale(0x1_0000, 8) == 0x100_0000 && Scale(0x100_0000, 8) == W32;
    }
  }

  lemma Scale32(x: int)
    ensures Scale(x, 32) == W32 * x
  {
    hide Times, Pow2, Scale;
    Pow2At32();
    ScaleIsTimes(x, 32);
    TimesIs(x, W32);
  }

  /** Truncation to a 64-bit register. */
  function U64(x: int): nat { x % W64 }

  lemma HiLo(a: nat)
    ensures a == W32 * HiWord(a) + LoWord(a) && LoWord(a) < W32
    ensures a < W64 ==> HiWord(a) < W32
  {
    hide Times, Pow2, Scale, Low, And, Shr;
    Pow2At32();
    AndMask(a, 32);
    HighLow(a, 32);
    Scale32(Shr(a, 32));
  }

  /** A sum that fits its register is not truncated ... */
  lemma Fits(x: int)
    requires 0 <= x < W64
    ensures U64(x) == x
  {
  }

  /** ... and a shift by a word keeps the low word. */
  lemma ShiftWord(x: nat)
    ensures U64(x * W32) == W32 * LoWord(x) < W64
  {
    hide And;
    HiLo(x);
    var h, l := HiWord(x), LoWord(x);
    assert x * W32 == W64 * h + W32 * l;
  }

  /** The cross products of two words are below (2^32 - 1)^2. */
  lemma WordProduct(x: nat, y: nat)
    requires x < W32 && y < W32
    ensures 0 <= Times(x, y) <= 0xffff_fffe_0000_0001
  {
    hide Times;
    TimesIs(0xffff_ffff, 0xffff_ffff);
    TimesNat(x, y);
    TimesMono(x, 0xffff_ffff, y);
    TimesMono(y, 0xffff_ffff, 0xffff_ffff);
  }

  lemma Expand(ah: int, al: int, bh: int, bl: int)
    ensures Times(W32 * ah + al, W32 * bh + bl)
         == W64 * Times(ah, bh) + W32 * (Times(ah, bl) + Times(al, bh)) + Times(al, bl)
  {
    calc {
      (W32 * ah + al) * (W32 * bh + bl);
      (W32 * ah) * (W32 * bh) + (W32 * ah) * bl + al * (W32 * bh) + al * bl;
      W64 * (ah * bh) + W32 * (ah * bl) + W32 * (al * bh) + al * bl;
    }
  }

  /** All that the three word-split routines know about their factors. */
  lemma Factors(a: nat, b: nat)
    requires a < W64 && b < W64
    ensures HiWord(a) < W32 && HiWord(b) < W32 && LoWord(a) < W32 && LoWord(b) < W32
    ensures Times(a, b) == W64 * Times(HiWord(a), HiWord(b))
                         + W32 * (Times(HiWord(a), LoWord(b)) + Times(LoWord(a), HiWord(b)))
                         + Times(LoWord(a), LoWord(b))
    ensures 0 <= Times(HiWord(a), HiWord(b)) <= 0xffff_fffe_0000_0001
    ensures 0 <= Times(HiWord(a), LoWord(b)) <= 0xffff_fffe_0000_0001
    ensures 0 <= Times(LoWord(a), HiWord(b)) <= 0xffff_fffe_0000_0001
    ensures 0 <= Times(LoWord(a), LoWord(b)) <= 0xffff_fffe_0000_0001
  {
    hide Times, HiWord, LoWord;
    HiLo(a);
    HiLo(b);
    Expand(HiWord(a), LoWord(a), HiWord(b), LoWord(b));
    WordProduct(HiWord(a), HiWord(b));
    WordProduct(HiWord(a), LoWord(b));
    WordProduct(LoWord(a), HiWord(b));
    WordProduct(LoWord(a), LoWord(b));
  }

  /** A product of two words, computed in a 64-bit register. */
  method Product(x: nat, y: nat) returns (p: nat)
    requires x < W32 && y < W32
    ensures p == Times(x, y) <= 0xffff_fffe_0000_0001
  {
    WordProduct(x, y);
    Fits(x * y);
    p := U64(x * y);
  }

  /** 64x64 -> 128. */
  method WideMultiply64(a: nat, b: nat) returns (hi: nat, lo: nat)
    requires a < W64 && b < W64
    ensures hi < W64 && lo < W64
    ensures W64 * hi + lo == Times(a, b)
  {
    hide Times, HiWord, LoWord, U64;
    Factors(a, b);
    var plolo := Product(LoWord(a), LoWord(b));
    var plohi := Product(LoWord(a), HiWord(b));
    var philo := Product(HiWord(a), LoWord(b));
    var phihi := Product(HiWord(a), HiWord(b));
    HiLo(plolo);
    HiLo(plohi);
    HiLo(philo);
    var r0 := LoWord(plolo);
    Fits(HiWord(plolo) + LoWord(plohi) + LoWord(philo));
    var r1 := U64(HiWord(plolo) + LoWord(plohi) + LoWord(philo));
    HiLo(r1);
    ShiftWord(r1);
    Fits(r0 + U64(r1 * W32));
    lo := U64(r0 + U64(r1 * W32));
    Fits(HiWord(plohi) + HiWord(philo) + HiWord(r1) + phihi);
    hi := U64(HiWord(plohi) + HiWord(philo) + HiWord(r1) + phihi);
  }

  /** 64x64 -> 128 with the partial products carried through one register. */
  method MulDDi3(a: nat, b: nat) returns (high: nat, low: nat)
    requires a < W64 && b < W64
    ensures high < W64 && low < W64
    ensures W64 * high + low == Times(a, b)
  {
    hide Times, HiWord, LoWord, U64;
    Factors(a, b);
    TimesComm(HiWord(b), LoWord(a));
    low := Product(LoWord(a), LoWord(b));
    HiLo(low);
    var t := HiWord(low);
    low := LoWord(low);
    var p := Product(HiWord(a), LoWord(b));
    Fits(t + p);
    t := U64(t + p);
    HiLo(t);
    ShiftWord(LoWord(t));
    LoLo(t);
    Fits(low + U64(LoWord(t) * W32));
    low := U64(low + U64(LoWord(t) * W32));
    high := HiWord(t);
    HiLo(low);
    t := HiWord(low);
    low := LoWord(low);
    p := Product(HiWord(b), LoWord(a));
    Fits(t + p);
    t := U64(t + p);
    HiLo(t);
    ShiftWord(LoWord(t));
    LoLo(t);
    Fits(low + U64(LoWord(t) * W32));
    low := U64(low + U64(LoWord(t) * W32));
    Fits(high + HiWord(t));
    high := U64(high + HiWord(t));
    p := Product(HiWord(a), HiWord(b));
    Fits(high + p);
    high := U64(high + p);
  }

  lemma LoLo(a: nat)
    ensures LoWord(LoWord(a)) == LoWord(a)
  {
    hide And, LoWord;
    HiLo(a);
    HiLo(LoWord(a));
  }

  /** 128x128 -> 128, the low half of the product: multiplication modulo 2^128,
      which is the signed product of the two's-complement operands as well. */
  method Multi3(a: nat, b: nat) returns (r: nat)
    requires a < W128 && b < W128
    ensures r == Times(a, b) % W128
  {
    hide Times;
    var xh, xl, yh, yl := a / W64, a % W64, b / W64, b % W64;
    var high, low := MulDDi3(xl, yl);
    Expand64(xh, xl, yh, yl);
    TimesIs(xh, yl);
    TimesIs(xl, yh);
    TimesNat(xh, yl);
    TimesNat(xl, yh);
    var cross := U64(U64(xh * yl) + U64(xl * yh));
    LowProduct(Times(a, b), Times(xh, yh), high, low, xh * yl, xl * yh);
    high := U64(high + cross);
    r := high * W64 + low;
  }

  /** Only the low word of the cross products reaches the low half of the product. */
  lemma LowProduct(total: int, hh: int, h: nat, low: nat, p: nat, q: nat)
    requires low < W64 && total == W128 * hh + W64 * (p + q) + (W64 * h + low)
    ensures U64(h + U64(U64(p) + U64(q))) * W64 + low == total % W128
  {
    var c := (h + U64(U64(p) + U64(q))) / W64;
    var m := U64(h + U64(U64(p) + U64(q)));
    var k := p / W64 + q / W64 + (U64(p) + U64(q)) / W64 + c;
    assert p + q + h == W64 * k + m;
    assert total == W128 * (hh + k) + (W64 * m + low);
  }

  lemma Expand64(ah: int, al: int, bh: int, bl: int)
    ensures Times(W64 * ah + al, W64 * bh + bl)
         == W128 * Times(ah, bh) + W64 * (Times(ah, bl) + Times(al, bh)) + Times(al, bl)
  {
    calc {
      (W64 * ah + al) * (W64 * bh + bl);
      (W64 * ah) * (W64 * bh) + (W64 * ah) * bl + al * (W64 * bh) + al * bl;
      W128 * (ah * bh) + W64 * (ah * bl) + W64 * (al * bh) + al * bl;
    }
  }

  // ----- 128x128 -> 256 -----

  /** The columns of the schoolbook product of two numbers of four words each. */
  datatype Columns = Columns(s0: nat, s1: nat, s2: nat, s3: nat, s4: nat, s5: nat, s6: nat) {
    ghost function Total(): int {
      s0 + W32 * s1 + W64 * s2 + W32 * W64 * s3 + W128 * (s4 + W32 * s5 + W64 * s6)
    }
  }

  function Word(a: nat, i: nat): nat
    requires 1 <= i <= 4
  {
    if i == 4 then LoWord(a)
    else if i == 3 then LoWord(a / W32)
    else if i == 2 then LoWord(a / W64)
    else LoWord(a / (W32 * W64))
  }

  ghost function Pair(a: nat, i: nat, b: nat, j: nat): int
    requires 1 <= i <= 4 && 1 <= j <= 4
  {
    Times(Word(a, i), Word(b, j))
  }

  lemma WordsOf(a: nat)
    requires a < W128
    ensures a == W64 * (W32 * Word(a, 1) + Word(a, 2)) + (W32 * Word(a, 3) + Word(a, 4))
    ensures Word(a, 1) < W32 && Word(a, 2) < W32 && Word(a, 3) < W32 && Word(a, 4) < W32
  {
    hide And, LoWord;
    var a1, a2, a3 := a / W32, a / W64, a / (W32 * W64);
    HiLo(a);
    HiLo(a1);
    HiLo(a2);
    HiLo(a3);
    Quotients(a);
    TopWord(a3, LoWord(a3));
  }

  /** Dividing by words, one after the other. */
  lemma Quotients(a: nat)
    ensures a / W32 / W32 == a / W64 && a / W64 / W32 == a / (W32 * W64)
    ensures a < W128 ==> a / (W32 * W64) < W32
  {
    var q, r := a / W32, a % W32;
    Nested(q / W32, q % W32, r);
    var q', r' := a / W64, a % W64;
    NestedTwice(q' / W32, q' % W32, r');
  }

  lemma Nested(q: nat, x: nat, y: nat)
    requires x < W32 && y < W32
    ensures (W32 * (W32 * q + x) + y) / W64 == q
  {
  }

  lemma NestedTwice(q: nat, x: nat, y: nat)
    requires x < W32 && y < W64
    ensures (W64 * (W32 * q + x) + y) / (W32 * W64) == q
  {
  }

  lemma TopWord(a: nat, low: nat)
    requires a < W32 && a == W32 * HiWord(a) + low
    ensures low == a
  {
  }

  /** The columns add up to the product. */
  lemma ColumnsTotal(a: nat, b: nat)
    requires a < W128 && b < W128
    ensures Times(a, b)
         == Pair(a, 4, b, 4) + W32 * (Pair(a, 3, b, 4) + Pair(a, 4, b, 3))
          + W64 * (Pair(a, 2, b, 4) + Pair(a, 3, b, 3) + Pair(a, 4, b, 2))
          + W32 * W64 * (Pair(a, 1, b, 4) + Pair(a, 2, b, 3) + Pair(a, 3, b, 2) + Pair(a, 4, b, 1))
          + W128 * ((Pair(a, 1, b, 3) + Pair(a, 2, b, 2) + Pair(a, 3, b, 1))
                    + W32 * (Pair(a, 1, b, 2) + Pair(a, 2, b, 1)) + W64 * Pair(a, 1, b, 1))
  {
    hide Times, Word;
    WordsOf(a);
    WordsOf(b);
    Expand64(W32 * Word(a, 1) + Word(a, 2), W32 * Word(a, 3) + Word(a, 4),
             W32 * Word(b, 1) + Word(b, 2), W32 * Word(b, 3) + Word(b, 4));
    Expand(Word(a, 1), Word(a, 2), Word(b, 1), Word(b, 2));
    Expand(Word(a, 1), Word(a, 2), Word(b, 3), Word(b, 4));
    Expand(Word(a, 3), Word(a, 4), Word(b, 1), Word(b, 2));
    Expand(Word(a, 3), Word(a, 4), Word(b, 3), Word(b, 4));
  }

  /** The sixteen products, added column by column; no column reaches 2^66. */
  method ColumnSums(a: nat, b: nat) returns (c: Columns)
    requires a < W128 && b < W128
    ensures c.Total() == Times(a, b)
    ensures Bounded(c)
    ensures c.s0 == Pair(a, 4, b, 4) && c.s1 == Pair(a, 3, b, 4) + Pair(a, 4, b, 3)
  {
    hide Times, Word;
    WordsOf(a);
    WordsOf(b);
    ColumnsTotal(a, b);
    var p11 := Product(Word(a, 1), Word(b, 1));
    var p12 := Product(Word(a, 1), Word(b, 2));
    var p13 := Product(Word(a, 1), Word(b, 3));
    var p14 := Product(Word(a, 1), Word(b, 4));
    var p21 := Product(Word(a, 2), Word(b, 1));
    var p22 := Product(Word(a, 2), Word(b, 2));
    var p23 := Product(Word(a, 2), Word(b, 3));
    var p24 := Product(Word(a, 2), Word(b, 4));
    var p31 := Product(Word(a, 3), Word(b, 1));
    var p32 := Product(Word(a, 3), Word(b, 2));
    var p33 := Product(Word(a, 3), Word(b, 3));
    var p34 := Product(Word(a, 3), Word(b, 4));
    var p41 := Product(Word(a, 4), Word(b, 1));
    var p42 := Product(Word(a, 4), Word(b, 2));
    var p43 := Product(Word(a, 4), Word(b, 3));
    var p44 := Product(Word(a, 4), Word(b, 4));
    c := Columns(p44, p34 + p43, p24 + p33 + p42, p14 + p23 + p32 + p41,
                 p13 + p22 + p31, p12 + p21, p11);
  }

  /** The low digit of the product, in base 2^64, comes out of its column with a carry ... */
  ghost predicate CarryOutOfLowDigit(a: nat, b: nat) {
    Pair(a, 4, b, 4) + W32 * ((Pair(a, 3, b, 4) + Pair(a, 4, b, 3)) % W32) >= W64
  }

  /** ... which the routine loses when the next digit of the product is zero. */
  ghost predicate LosesCarry(a: nat, b: nat) {
    CarryOutOfLowDigit(a, b) && Times(a, b) / W64 % W64 == 0
  }

  function U128(x: int): nat { x % W128 }

  /** `x & 0xffffffff00000000`. */
  function HighMask(x: nat): nat { And(x, 0xffff_ffff_0000_0000) }

  lemma {:induction false} AndScaled(x: nat, m: nat, k: nat)
    ensures Scale(x, k) >= 0 && Scale(m, k) >= 0
    ensures And(Scale(x, k), Scale(m, k)) == Scale(And(x, m), k)
  {
    ScaleMono(0, x, k);
    ScaleMono(0, m, k);
    ScaleOne(k);
    if k > 0 { AndScaled(x, m, k - 1); }
  }

  lemma HighMaskIs(x: nat)
    ensures HighMask(W32 * x) == W32 * LoWord(x)
  {
    hide Times, Pow2, Scale, Low, And;
    Pow2At32();
    AndScaled(x, 0xffff_ffff, 32);
    Scale32(x);
    Scale32(0xffff_ffff);
    Scale32(LoWord(x));
  }

  lemma Fits128(x: int)
    requires 0 <= x < W128
    ensures U128(x) == x
  {
  }

  lemma ProductBelow(a: nat, b: nat)
    requires a < W128 && b < W128
    ensures Times(a, b) < W128 * W128
  {
    hide Times;
    TimesMono(a, W128 - 1, b);
    TimesMono(b, W128 - 1, W128 - 1);
    TimesIs(W128 - 1, W128 - 1);
  }

  ghost predicate Bounded(c: Columns) {
    && c.s0 < W64 && c.s1 < 2 * W64 && c.s2 < 3 * W64 && c.s3 < 4 * W64
    && c.s4 < 3 * W64 && c.s5 < 2 * W64 && c.s6 < W64
  }

  /** The two partial sums of the low half, and what is left for the high half. */
  lemma PartialSums(c: Columns)
    requires Bounded(c)
    ensures U128(c.s0 % W64 + U128(LoWord(c.s1) * W32)) == c.s0 + W32 * LoWord(c.s1) < 2 * W64
    ensures U128(c.s0 / W64 + c.s1 / W32 % W64 + c.s2 % W64 + HighMask(U128(c.s3 * W32)))
         == HiWord(c.s1) + c.s2 % W64 + W32 * LoWord(c.s3)
    ensures c.Total() == (c.s0 + W32 * LoWord(c.s1))
                       + W64 * (HiWord(c.s1) + c.s2 % W64 + W32 * LoWord(c.s3))
                       + W128 * (c.s2 / W64 + HiWord(c.s3) + c.s4 + W32 * c.s5 + W64 * c.s6)
  {
    hide And, LoWord, U128, HighMask;
    HiLo(c.s1);
    HiLo(c.s3);
    HighMaskIs(c.s3);
    Fits128(LoWord(c.s1) * W32);
    Fits128(c.s3 * W32);
    Fits128(c.s0 + LoWord(c.s1) * W32);
    Fits128(HiWord(c.s1) + c.s2 % W64 + W32 * LoWord(c.s3));
    assert HiWord(c.s1) % W64 == HiWord(c.s1);
  }

  /** 128x128 -> 256. The low half is always right; the high half is right exactly when
      no carry is lost, and otherwise one too small. */
  method WideMultiply128(a: nat, b: nat) returns (hi: nat, lo: nat)
    requires a < W128 && b < W128
    ensures lo == Times(a, b) % W128
    ensures hi == if LosesCarry(a, b) then Times(a, b) / W128 - 1 else Times(a, b) / W128
    ensures W128 * hi + lo == Times(a, b) <==> !LosesCarry(a, b)
  {
    hide Times, Word, Pair, And, LoWord, U128, HighMask;
    var c := ColumnSums(a, b);
    ProductBelow(a, b);
    PartialSums(c);
    var r0 := U128(c.s0 % W64 + U128(LoWord(c.s1) * W32));
    var r1 := U128(c.s0 / W64 + c.s1 / W32 % W64 + c.s2 % W64 + HighMask(U128(c.s3 * W32)));
    var up := c.s2 / W64 + HiWord(c.s3) + c.s4 + W32 * c.s5 + W64 * c.s6;
    HighHalf(Times(a, b), r0, r1, up);
    HighSum(c, r1);
    HiLo(c.s1);
    lo := U128(r0 + U128(r1 * W64));
    hi := U128(r1 / W64 + c.s1 / (W32 * W64) + c.s2 / W64 + c.s3 / W32 + c.s4
               + U128(c.s5 * W32) + U128(c.s6 * W64));
  }

  lemma HighSum(c: Columns, r1: nat)
    requires Bounded(c)
    requires r1 / W64 + (c.s2 / W64 + HiWord(c.s3) + c.s4 + W32 * c.s5 + W64 * c.s6) < W128
    ensures U128(r1 / W64 + c.s1 / (W32 * W64) + c.s2 / W64 + c.s3 / W32 + c.s4
                 + U128(c.s5 * W32) + U128(c.s6 * W64))
         == r1 / W64 + (c.s2 / W64 + HiWord(c.s3) + c.s4 + W32 * c.s5 + W64 * c.s6)
  {
    hide U128;
    Fits128(c.s5 * W32);
    Fits128(c.s6 * W64);
    assert c.s1 / (W32 * W64) == 0;
    Fits128(r1 / W64 + (c.s2 / W64 + HiWord(c.s3) + c.s4 + W32 * c.s5 + W64 * c.s6));
  }

  /** The halves that the routine forms from its two partial sums. */
  lemma HighHalf(total: int, r0: nat, r1: nat, up: nat)
    requires total == r0 + W64 * r1 + W128 * up < W128 * W128
    requires r0 < 2 * W64
    ensures r1 / W64 + up < W128
    ensures U128(r0 + U128(r1 * W64)) == total % W128
    ensures var lost := r0 >= W64 && total / W64 % W64 == 0;
      r1 / W64 + up == if lost then total / W128 - 1 else total / W128
  {
    var t, v := r1 / W64, r1 % W64;
    assert r1 == W64 * t + v;
    var x := r0 + W64 * v;
    assert total == x + W128 * (t + up);
    ShiftDigit(r1);
    if x >= W128 {
      assert x - W128 == r0 - W64 && v == W64 - 1;
      Digits(total, t + up + 1, 0, r0 - W64);
      Remainder128(x, 1, r0 - W64);
    } else {
      Digits(total, t + up, x / W64, x % W64);
      Remainder128(x, 0, x);
    }
  }

  lemma ShiftDigit(r: nat)
    ensures U128(r * W64) == W64 * (r % W64)
  {
    assert r * W64 == W128 * (r / W64) + W64 * (r % W64);
  }

  lemma Remainder128(x: nat, q: nat, r: nat)
    requires x == W128 * q + r && r < W128
    ensures U128(x) == r
  {
  }

  lemma Digits(x: int, h: int, m: nat, l: nat)
    requires x == W128 * h + (W64 * m + l) && m < W64 && l < W64
    ensures x / W128 == h && x % W128 == W64 * m + l && x / W64 % W64 == m
  {
    assert x / W64 == W64 * h + m;
  }

  /** A product whose high half comes out wrong: 3 times the inverse of 3 modulo 2^128
      is 2^129 + 1, and the routine delivers a high half of 1. */
  lemma LostCarryExample()
    ensures LosesCarry(3, 0xaaaa_aaaa_aaaa_aaaa_aaaa_aaaa_aaaa_aaab)
  {
    hide LoWord;
    var b := 0xaaaa_aaaa_aaaa_aaaa_aaaa_aaaa_aaaa_aaab;
    LoWordLit(3, 0, 3);
    LoWordLit(0, 0, 0);
    LoWordLit(b, 0xaaaa_aaaa_aaaa_aaaa_aaaa_aaaa, 0xaaaa_aaab);
    LoWordLit(b / W32, 0xaaaa_aaaa_aaaa_aaaa, 0xaaaa_aaaa);
    assert 3 / W32 == 0;
  }

  lemma LoWordLit(x: nat, q: nat, r: nat)
    requires x == W32 * q + r && r < W32
    ensures LoWord(x) == r
  {
    hide And, LoWord;
    HiLo(x);
  }
}
