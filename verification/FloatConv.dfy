/** `__floatundisf` and `__floatunsisf`: two ways to round an unsigned integer to binary32. */
module FloatConv {
  import opened Bits
  import opened Products
  import opened Binary32

  /** The pattern of an integer is its correct rounding. */
  ghost predicate RoundsInteger(a: nat, m: nat) { Rounds(Units(a), 1, m) }

  /** `c` is the quotient q of a by 2^s, or q + 1, whichever is nearer; the even one in a tie. */
  ghost predicate RoundedQuotient(a: nat, s: nat, c: nat) {
    var q, r := Shr(a, s), Low(a, s);
    && (c == q || c == q + 1)
    && (c == q ==> 2 * r <= Pow2(s))
    && (c == q + 1 ==> 2 * r >= Pow2(s))
    && (2 * r == Pow2(s) ==> c % 2 == 0)
  }

  /** Dropping `s` places with that rounding gives the pattern of exponent s + 23. */
  lemma QuotientRounds(a: nat, s: nat, c: nat)
    requires s <= 40 && IMPLICIT <= Shr(a, s) < 2 * IMPLICIT
    requires RoundedQuotient(a, s, c)
    ensures RoundsInteger(a, (s + 150) * IMPLICIT + (c - IMPLICIT))
  {
    hide Times, Scale, Shr, Low, Pow2, Rounds;
    var q, r, b := Shr(a, s), Low(a, s), Pow2(s);
    HighLow(a, s);
    ScaleIsTimes(q, s);
    ScaleIsTimes(Scale(a, 149), s);
    ScaleScale(a, 149, s);
    TimesOne(Scale(a, s + 149));
    var up, down := 2 * c + 1, 2 * c - 1;
    TimesAdd(q, q, b);
    TimesOne(b);
    TimesAdd(2 * q, 1, b);
    TimesAdd(2 * q + 1, 2, b);
    TimesSub(2 * q, 1, b);
    TimesDouble(1, b);
    TimesMono(IMPLICIT, q, b);
    RoundInBinade(Units(a), 1, a, b, s + 150, c - IMPLICIT);
  }

  /** An integer of at most 24 bits is represented exactly. */
  lemma ExactRounds(a: nat, t: nat, c: nat)
    requires t <= 23 && c == Scale(a, t) && IMPLICIT <= c < 2 * IMPLICIT
    ensures RoundsInteger(a, (150 - t) * IMPLICIT + (c - IMPLICIT))
  {
    hide Times, Scale, Pow2, Rounds;
    ScaleScale(a, t, 149 - t);
    TimesOne(Units(a));
    TimesOne(2 * c + 1);
    TimesOne(2 * c - 1);
    TimesOne(IMPLICIT);
    RoundInBinade(Units(a), 1, c, 1, 150 - t, c - IMPLICIT);
  }

  lemma ZeroRounds()
    ensures RoundsInteger(0, 0)
  {
    hide Times, Scale, Rounds;
    ScaleOne(149);
    TimesNat(Value(1), 1);
    ValueMono(0, 1);
    TimesZero(1);
    MidpointsRound(0, 1, 0);
  }

  /** Where the leading bit of `a` goes when all but 24 bits are dropped. */
  lemma LeadingBits(a: nat, s: nat)
    requires a > 0 && BitLen(a) == 24 + s
    ensures IMPLICIT <= Shr(a, s) < 2 * IMPLICIT
  {
    hide Pow2, Shr, BitLen;
    Literals();
    BitLenBounds(a);
    ShrBound(a, s, 24 + s);
    if Shr(a, s) < IMPLICIT {
      HighLow(a, s);
      ScaleMono(Shr(a, s) + 1, IMPLICIT, s);
      ScaleMono(Shr(a, s), Shr(a, s) + 1, s);
      ScalePow2(23, s);
    }
  }

  lemma ShiftedUp(a: nat, t: nat)
    requires a > 0 && t <= 23 && BitLen(a) == 24 - t
    ensures IMPLICIT <= Scale(a, t) < 2 * IMPLICIT
  {
    hide Pow2, Scale, BitLen;
    Literals();
    BitLenBounds(a);
    ScaleMono(Pow2(23 - t), a, t);
    ScaleMono(a, Pow2(24 - t), t);
    ScalePow2(23 - t, t);
    ScalePow2(24 - t, t);
  }

  /** 32-bit conversion: the dropped bits are compared with one half. */
  method FloatUnSiSf(a: nat) returns (bits: nat)
    requires a < Pow2(32)
    ensures RoundsInteger(a, bits)
  {
    hide Pow2, Scale, Shr, Low, BitLen, Xor, Rounds, RoundsInteger;
    if a == 0 {
      ZeroRounds();
      return 0;
    }
    Literals();
    BitLenFits(a, 32);
    BitLenBounds(a);
    var exponent := 31 - Clz(a, 32);
    var result;
    if exponent <= 23 {
      var shift := 23 - exponent;
      ShiftedUp(a, shift);
      LowSmall(Scale(a, shift), 32);
      XorTopBit(Scale(a, shift), 23);
      result := Xor(Shl(a, shift, 32), IMPLICIT);
      ExactRounds(a, shift, IMPLICIT + result);
    } else {
      var shift := exponent - 23;
      LeadingBits(a, shift);
      XorTopBit(Shr(a, shift), 23);
      result := Xor(Shr(a, shift), IMPLICIT);
      var round := Shl(a, 32 - shift, 32);
      HalfOfDropped(a, shift);
      if round > SIGN_BIT {
        result := result + 1;
      }
      if round == SIGN_BIT {
        result := result + And(result, 1);
      }
      ParityBit(result);
      ParityBit(Shr(a, shift) - IMPLICIT);
      QuotientRounds(a, shift, IMPLICIT + result);
    }
    result := result + (exponent + 127) * IMPLICIT;
    bits := result;
  }

  lemma ParityBit(x: nat)
    ensures And(x, 1) == x % 2
  {
    assert And(x / 2, 0) == 0;
  }

  /** Moving the dropped bits to the top of the register compares them with one half. */
  lemma HalfOfDropped(a: nat, s: nat)
    requires 1 <= s <= 32
    ensures Shl(a, 32 - s, 32) > Pow2(31) <==> 2 * Low(a, s) > Pow2(s)
    ensures Shl(a, 32 - s, 32) == Pow2(31) <==> 2 * Low(a, s) == Pow2(s)
  {
    hide Scale, Low, Shl, Pow2;
    ShlLow(a, 32 - s, 32);
    Next(0, s - 1);
    ScalePow2(s - 1, 32 - s);
    var r, h := Low(a, s), Pow2(s - 1);
    if r > h { ScaleMono(h, r, 32 - s); }
    if r < h { ScaleMono(r, h, 32 - s); }
  }

  /** The 26-bit working value: 24 bits, the bit below them (Q), and whether anything follows (R). */
  ghost predicate Sticky(a: nat, s: nat, work: nat) {
    var q, r := Shr(a, s), Low(a, s);
    && work / 4 == q
    && (work % 4 >= 2 <==> 2 * r >= Pow2(s))
    && (work % 2 == 1 <==> r != 0 && 2 * r != Pow2(s))
  }

  /** Or-ing the last kept bit into R and adding one rounds to nearest, ties to even. */
  lemma StickyRounds(a: nat, s: nat, work: nat)
    requires Sticky(a, s, work)
    ensures RoundedQuotient(a, s, (Or(work, if And(work, 4) != 0 then 1 else 0) + 1) / 4)
  {
    hide Shr, Low, Pow2, Or, And;
    var q, t := work / 4, work % 4;
    BitTwo(work);
    OrOne(work);
    OrZero(work);
    LastTwoBits(q, t);
    LowBitSet(q, t);
    RoundUp(q, t);
    assert work == 4 * q + t;
  }

  /** Setting the lowest bit. */
  lemma LowBitSet(q: nat, t: nat)
    requires t < 4
    ensures (4 * q + t) / 2 * 2 + 1 == 4 * q + (if t >= 2 then 3 else 1)
  {
    EvenPart(2 * q, t);
    var x := 4 * q + t;
    assert x == x / 2 * 2 + x % 2;
  }

  lemma RoundUp(q: nat, t: nat)
    requires t < 4
    ensures (4 * q + t + 1) / 4 == if t == 3 then q + 1 else q
    ensures (4 * q + t) / 4 == q && (4 * q + t) % 4 == t
  {
  }

  lemma BitTwo(x: nat)
    ensures And(x, 4) != 0 <==> x / 4 % 2 == 1
  {
    assert And(x, 4) == 2 * And(x / 2, 2);
    assert And(x / 2, 2) == 2 * And(x / 2 / 2, 1);
    ParityBit(x / 2 / 2);
  }

  lemma OrOne(x: nat)
    ensures Or(x, 1) == x / 2 * 2 + 1
  {
    OrZero(x / 2);
  }

  /** 64-bit conversion: the dropped bits are summed up in two. */
  method FloatUnDiSf(a0: nat) returns (bits: nat)
    requires a0 < Pow2(64)
    ensures RoundsInteger(a0, bits)
  {
    hide Pow2, Scale, Shr, Low, BitLen, Or, And, Rounds, RoundsInteger, RoundedQuotient, Sticky;
    if a0 == 0 {
      ZeroRounds();
      return 0;
    }
    Literals();
    var a := a0;
    var sd := 64 - Clz(a, 64);
    var e := sd - 1;
    BitLenFits(a, 64);
    BitLenBounds(a);
    if sd > 24 {
      ghost var s := sd - 24;
      LeadingBits(a, s);
      if sd == 25 {
        a := Low(2 * a, 64);
        StickyShort(a0);
      } else if sd == 26 {
        StickyTwo(a0);
      } else {
        var rest := if And(a, Shr(Pow2(64) - 1, 90 - sd)) != 0 then 1 else 0;
        a := Or(Shr(a, sd - 26), rest);
        StickyLong(a0, sd);
      }
      StickyRounds(a0, s, a);
      a := Or(a, if And(a, 4) != 0 then 1 else 0);
      a := a + 1;
      a := a / 4;
      QuotientRounds(a0, s, a) by { RoundedBound(a0, s, a); }
      RoundedBound(a0, s, a);
      CarryBit(a);
      if And(a, 2 * IMPLICIT) != 0 {
        a := a / 2;
        e := e + 1;
      }
    } else {
      ShiftedUp(a, 24 - sd);
      ExactRounds(a, 24 - sd, Scale(a, 24 - sd));
      ShiftedFits(a, 24 - sd);
      a := Shl(a, 24 - sd, 64);
    }
    Assemble(e, a);
    bits := Or(Shl(e + 127, 23, 32), And(Low(a, 32), 0x7f_ffff));
  }

  lemma RoundedBound(a: nat, s: nat, c: nat)
    requires RoundedQuotient(a, s, c) && IMPLICIT <= Shr(a, s) < 2 * IMPLICIT
    ensures IMPLICIT <= c <= 2 * IMPLICIT
  {
  }

  lemma StickyShort(a: nat)
    requires a < Pow2(25)
    ensures Low(2 * a, 64) == 2 * a && Sticky(a, 1, 2 * a)
  {
    hide Scale, Shr, Low, Pow2;
    Pow2Mono(26, 64);
    assert Pow2(26) == 2 * Pow2(25) by { Next(0, 25); }
    LowSmall(2 * a, 64);
    One(a);
  }

  lemma StickyTwo(a: nat)
    ensures Sticky(a, 2, a)
  {
    hide Shr, Low, Pow2;
    Four(a);
    LastTwoBits(a / 4, a % 4);
  }

  lemma LastTwoBits(q: nat, r: nat)
    requires r < 4
    ensures (4 * q + r) % 2 == 1 <==> r == 1 || r == 3
  {
    EvenPart(2 * q, r);
  }

  lemma EvenPart(q: nat, r: nat)
    ensures (2 * q + r) % 2 == r % 2
  {
  }

  /** Two bits below the significand, the lower one standing for all that follow. */
  lemma StickyLong(a: nat, sd: nat)
    requires 26 < sd <= 64
    ensures Shr(a, sd - 26) >= 0
    ensures var rest := if And(a, Shr(Pow2(64) - 1, 90 - sd)) != 0 then 1 else 0;
      Sticky(a, sd - 24, Or(Shr(a, sd - 26), rest))
  {
    hide Scale, Shr, Low, Or, And, Pow2;
    var k := sd - 26;
    AllOnes(64, 64 - k);
    AndMask(a, k);
    var x, low := Shr(a, k), Low(a, k);
    OrOne(x);
    OrZero(x);
    TwoMore(a, k);
    Quarters(x % 4, k);
    StickyBits(x % 4, low, Pow2(k), Scale(x % 4, k) + low);
    var q, t := x / 4, x % 4;
    assert x == 4 * q + t;
    LowBitSet(q, t);
    var low2 := if t >= 2 then 3 else 1;
    LastTwoBits(q, t);
    LastTwoBits(q, low2);
    RoundUp(q, t);
    RoundUp(q, low2);
  }

  /** Dropping two more places. */
  lemma TwoMore(a: nat, k: nat)
    ensures Shr(a, k) >= 0 && Shr(a, k + 2) == Shr(a, k) / 4
    ensures Low(a, k + 2) == Scale(Shr(a, k) % 4, k) + Low(a, k)
  {
    hide Scale, Shr, Low, Pow2;
    var x := Shr(a, k);
    HighLow(a, k);
    HighLow(x, 2);
    Four(x);
    ScaleScale(x / 4, 2, k);
    ScaleAdd(Scale(x / 4, 2), x % 4, k);
    Quarters(x % 4, k);
    HighLowUnique(a, k + 2, x / 4, Scale(x % 4, k) + Low(a, k));
  }

  lemma StickyBits(t: nat, low: nat, p: nat, r: nat)
    requires t < 4 && low < p
    requires r == low + if t == 0 then 0 else if t == 1 then p else if t == 2 then 2 * p else 3 * p
    ensures r < 4 * p
    ensures t >= 2 <==> 2 * r >= 4 * p
    ensures t % 2 == 1 || low != 0 <==> r != 0 && 2 * r != 4 * p
  {
  }

  lemma Four(x: nat)
    ensures Shr(x, 2) == x / 4 && Low(x, 2) == x % 4 && Pow2(2) == 4
  {
    assert Shr(x / 2, 1) == Shr(x / 2 / 2, 0) && Low(x / 2, 1) == 2 * Low(x / 2 / 2, 0) + x / 2 % 2;
  }

  lemma Quarters(t: nat, k: nat)
    requires t < 4
    ensures var p := Pow2(k);
      && Pow2(k + 2) == 4 * p
      && Scale(t, k) == if t == 0 then 0 else if t == 1 then p else if t == 2 then 2 * p else 3 * p
  {
    hide Scale;
    ScaleOne(k);
    ScaleAdd(1, 1, k);
    ScaleAdd(2, 1, k);
    assert Pow2(k + 2) == 2 * Pow2(k + 1);
  }

  lemma AllOnes(w: nat, k: nat)
    requires k <= w
    ensures Shr(Pow2(w) - 1, k) == Pow2(w - k) - 1
  {
    hide Scale, Shr, Pow2;
    ScalePow2(w - k, k);
    ScaleAdd(Pow2(w - k), -1, k);
    ScaleAdd(1, -1, k);
    ScaleOne(k);
    HighLowUnique(Pow2(w) - 1, k, Pow2(w - k) - 1, Pow2(k) - 1);
  }

  /** Testing bit 24 of a value of at most 2^24. */
  lemma CarryBit(c: nat)
    requires c <= 2 * IMPLICIT
    ensures And(c, 2 * IMPLICIT) != 0 <==> c == 2 * IMPLICIT
  {
    hide And, Pow2;
    Literals();
    AndTopBit(c, 24);
  }

  lemma ShiftedFits(a: nat, t: nat)
    requires t <= 23 && Scale(a, t) < 2 * IMPLICIT
    requires a > 0
    ensures Shl(a, t, 64) == Scale(a, t)
  {
    hide Scale, Low, Pow2;
    Literals();
    Pow2Mono(24, 64);
    ScaleMono(0, a, t);
    ScaleOne(t);
    LowSmall(Scale(a, t), 64);
  }

  /** Exponent and fraction are joined without touching each other. */
  lemma Assemble(e: nat, c: nat)
    requires e <= 64 && IMPLICIT <= c < 2 * IMPLICIT
    ensures Or(Shl(e + 127, 23, 32), And(Low(c, 32), 0x7f_ffff)) == (e + 127) * IMPLICIT + (c - IMPLICIT)
  {
    hide Or, And, Scale, Low, Shl, Pow2;
    Literals();
    Pow2Mono(24, 32);
    LowSmall(c, 32);
    AndMask(c, 23);
    ScaleOne(23);
    HighLowUnique(c, 23, 1, c - IMPLICIT);
    Pack(e + 127, c - IMPLICIT);
  }

  /** On 32-bit inputs the two routines agree bit for bit: rounding has one result. */
  lemma Agree(a: nat, m: nat, m': nat)
    requires RoundsInteger(a, m) && RoundsInteger(a, m')
    ensures m == m'
  {
    RoundsUnique(Units(a), 1, m, m');
  }

  method Both(a: nat) returns (narrow: nat, wide: nat)
    requires a < Pow2(32)
    ensures narrow == wide
  {
    narrow := FloatUnSiSf(a);
    Pow2Mono(32, 64);
    wide := FloatUnDiSf(a);
    Agree(a, narrow, wide);
  }
}
