/** `__udivmoddi4` and `__udivmodti4`: shift-subtract division of a double word
    held as two halves of `w` bits (w = 32 and w = 64). */
module Division {
  import opened Bits
  import opened Products

  /** A double word split into its halves, as the union `udwords` / `utwords` does. */
  datatype Halves = Halves(high: nat, low: nat) {
    ghost predicate Fits(w: nat) { high < Pow2(w) && low < Pow2(w) }

    function All(w: nat): nat {
      ScaleMono(0, high, w);
      Scale(high, w) + low
    }
  }

  function Split(x: nat, w: nat): Halves { Halves(Shr(x, w), Low(x, w)) }

  /** A division by zero traps; otherwise quotient and remainder are delivered. */
  datatype Outcome = Trap | Done(quot: nat, rem: nat)

  ghost predicate IsDivision(a: nat, b: nat, quot: nat, rem: nat) {
    a == Times(quot, b) + rem && rem < b
  }

  // ----- Halves -----

  lemma SplitAll(x: nat, w: nat)
    requires x < Pow2(2 * w)
    ensures Split(x, w).Fits(w) && Split(x, w).All(w) == x
  {
    HighLow(x, w);
    ShrBound(x, w, 2 * w);
  }

  lemma AllBound(h: Halves, w: nat)
    requires h.Fits(w)
    ensures h.All(w) < Pow2(2 * w)
    ensures h.high == 0 ==> h.All(w) == h.low
    ensures h.high > 0 ==> h.All(w) >= Pow2(w)
  {
    hide Pow2, Scale, Shr, Low, Or, And, BitLen;
    ScalePow2(w, w);
    ScaleMono(h.high, Pow2(w), w);
    ScaleOne(w);
    if h.high > 0 { ScaleMono(1, h.high, w); }
  }

  lemma {:induction false} BitLenHigh(high: nat, low: nat, w: nat)
    requires high > 0 && low < Pow2(w)
    ensures BitLen(Halves(high, low).All(w)) == BitLen(high) + w
  {
    var x := Halves(high, low).All(w);
    if w > 0 {
      ScaleMono(0, high, w - 1);
      ScaleMono(1, high, w);
      ScaleOne(w);
      assert x == 2 * Halves(high, low / 2).All(w - 1) + low % 2;
      assert x / 2 == Halves(high, low / 2).All(w - 1);
      BitLenHigh(high, low / 2, w - 1);
    }
  }

  /** A dividend with fewer bits than the divisor is the remainder. */
  lemma ShorterIsSmaller(n: nat, d: nat)
    requires BitLen(n) < BitLen(d)
    ensures n < d
  {
    BitLenBounds(d);
    if n > 0 {
      BitLenBounds(n);
      Pow2Mono(BitLen(n), BitLen(d) - 1);
    }
  }

  // ----- The seed of the loop -----

  /** `r = n >> sr` and `q = n << (2w - sr)`, whatever halves they are built from. */
  ghost predicate Seeded(n: nat, sr: nat, q: Halves, r: Halves, w: nat) {
    && 1 <= sr < 2 * w
    && q.Fits(w) && r.Fits(w)
    && r.All(w) == Shr(n, sr)
    && q.All(w) == Scale(Low(n, sr), 2 * w - sr)
  }

  function SeedBelow(n: Halves, sr: nat, w: nat): (Halves, Halves)
    requires 1 <= sr < w
  {
    (Halves(Shl(n.low, w - sr, w), 0),
     Halves(Shr(n.high, sr), Or(Shl(n.high, w - sr, w), Shr(n.low, sr))))
  }

  function SeedAbove(n: Halves, sr: nat, w: nat): (Halves, Halves)
    requires w < sr < 2 * w
  {
    (Halves(Or(Shl(n.high, 2 * w - sr, w), Shr(n.low, sr - w)), Shl(n.low, 2 * w - sr, w)),
     Halves(0, Shr(n.high, sr - w)))
  }

  /** Splicing the shifted halves of a double word is shifting the double word. */
  lemma Splice(h: Halves, s: nat, w: nat)
    requires s <= w && h.Fits(w)
    ensures var mid := Or(Shl(h.high, w - s, w), Shr(h.low, s));
      && mid == Scale(Low(h.high, s), w - s) + Shr(h.low, s) < Pow2(w)
      && Halves(Shr(h.high, s), mid).All(w) == Shr(h.All(w), s)
      && Low(h.All(w), s) == Low(h.low, s)
      && Shr(h.high, s) < Pow2(w)
  {
    hide Pow2, Scale, Shr, Low, Or, And, BitLen;
    var u, v := Shr(h.high, s), Low(h.high, s);
    var x, y := Shr(h.low, s), Low(h.low, s);
    HighLow(h.high, s);
    HighLow(h.low, s);
    ShlLow(h.high, w - s, w);
    ShrBound(h.low, s, w);
    ShrBound(h.high, s, w);
    Pow2Mono(w - s, w);
    OrDisjoint(Shl(h.high, w - s, w), x, w - s);
    ScaleMono(v, Pow2(s), w - s);
    ScalePow2(s, w - s);
    // h = (u * 2^s + v) * 2^w + x * 2^s + y
    ScaleAdd(Scale(u, s), v, w);
    ScaleScale(u, s, w);
    ScaleScale(u, w, s);
    ScaleScale(v, w - s, s);
    ScaleAdd(Scale(u, w) + Scale(v, w - s), x, s);
    ScaleAdd(Scale(u, w), Scale(v, w - s), s);
    HighLowUnique(h.All(w), s, Scale(u, w) + Scale(v, w - s) + x, y);
  }

  lemma SeedBelowOk(n: Halves, sr: nat, w: nat)
    requires n.Fits(w) && 1 <= sr < w
    ensures Seeded(n.All(w), sr, SeedBelow(n, sr, w).0, SeedBelow(n, sr, w).1, w)
  {
    hide Pow2, Scale, Shr, Low, Or, And, BitLen;
    Splice(n, sr, w);
    ShlLow(n.low, w - sr, w);
    ScaleScale(Low(n.low, sr), w - sr, w);
  }

  lemma SeedEqualOk(n: Halves, w: nat)
    requires n.Fits(w) && w >= 1
    ensures Seeded(n.All(w), w, Halves(n.low, 0), Halves(0, n.high), w)
  {
    ScaleOne(w);
    HighLowUnique(n.All(w), w, n.high, n.low);
  }

  lemma SeedAboveOk(n: Halves, sr: nat, w: nat)
    requires n.Fits(w) && w < sr < 2 * w
    ensures Seeded(n.All(w), sr, SeedAbove(n, sr, w).0, SeedAbove(n, sr, w).1, w)
  {
    hide Pow2, Scale, Shr, Low, Or, And, BitLen;
    var s := sr - w;
    Splice(n, s, w);
    ShlLow(n.low, w - s, w);
    var u, v, x, y := Shr(n.high, s), Low(n.high, s), Shr(n.low, s), Low(n.low, s);
    HighLow(n.high, s);
    HighLow(n.low, s);
    // n = u * 2^sr + (v * 2^w + low)
    ScaleAdd(Scale(u, s), v, w);
    ScaleScale(u, s, w);
    ScaleMono(v, Pow2(s), w);
    ScaleMono(0, v, w);
    ScalePow2(s, w);
    HighLowUnique(n.All(w), sr, u, Scale(v, w) + n.low);
    // (v * 2^w + x * 2^s + y) * 2^(w-s)
    ScaleAdd(Scale(v, w) + Scale(x, s), y, w - s);
    ScaleAdd(Scale(v, w), Scale(x, s), w - s);
    ScaleScale(v, w, w - s);
    ScaleScale(v, w - s, w);
    ScaleScale(x, s, w - s);
    ScaleAdd(Scale(v, w - s), x, w);
    ScaleOne(w);
  }

  // ----- One trip of the loop -----

  /** The sign-shift compare is right whenever the difference has no more than `W - 1` bits. */
  lemma SignCompare(d: nat, r: nat, width: nat)
    requires width >= 1 && d < Pow2(width) && r < Pow2(width)
    requires r < d ==> d - r - 1 < Pow2(width - 1)
    requires r >= d ==> r - d < Pow2(width - 1)
    ensures SignFill(Low(d - r - 1, width), width) == if r >= d then Pow2(width) - 1 else 0
  {
    ScaleOne(width);
    ScaleAdd(0, -1, width);
    ScaleAdd(1, -1, width);
    if r < d {
      LowSmall(d - r - 1, width);
    } else {
      HighLowUnique(d - r - 1, width, -1, d - r - 1 + Pow2(width));
    }
  }

  /** One left shift of the register r:q by one place, built from halves. */
  function ShiftIn(x: Halves, bit: nat, w: nat): Halves
    requires w >= 1
  {
    Halves(Or(Shl(x.high, 1, w), Shr(x.low, w - 1)), Or(Shl(x.low, 1, w), bit))
  }

  lemma ShiftInOk(x: Halves, bit: nat, w: nat)
    requires w >= 1 && x.Fits(w) && bit < 2
    ensures ShiftIn(x, bit, w).Fits(w)
    ensures ShiftIn(x, bit, w).All(w) == Low(2 * x.All(w) + bit, 2 * w)
    ensures Shr(x.high, w - 1) == Shr(x.All(w), 2 * w - 1) < 2
  {
    hide Pow2, Scale, Shr, Low, Or, And, BitLen;
    var u, v := Shr(x.high, w - 1), Low(x.high, w - 1);
    var s, t := Shr(x.low, w - 1), Low(x.low, w - 1);
    One(v);
    One(t);
    HighLow(x.high, w - 1);
    HighLow(x.low, w - 1);
    ShlLow(x.high, 1, w);
    ShlLow(x.low, 1, w);
    ShrBound(x.high, w - 1, w);
    ShrBound(x.low, w - 1, w);
    OrDisjoint(2 * v, s, 1);
    OrDisjoint(2 * t, bit, 1);
    ShiftInSum(u, v, s, t, bit, w);
    Next(u, 2 * w - 1);
    Next(u, w - 1);
    var lo := Scale(v, w) + x.low;
    assert x.All(w) == Scale(u, 2 * w - 1) + lo;
    HighLowUnique(x.All(w), 2 * w - 1, u, lo);
    HighLowUnique(2 * x.All(w) + bit, 2 * w, u, 2 * lo + bit);
  }

  lemma ShiftInSum(u: nat, v: nat, s: nat, t: nat, bit: nat, w: nat)
    requires w >= 1 && v < Pow2(w - 1) && t < Pow2(w - 1) && s < 2 && bit < 2
    ensures Scale(Scale(u, w - 1) + v, w) == Scale(u, 2 * w - 1) + Scale(v, w)
    ensures 0 <= Scale(v, w) + Scale(s, w - 1) + t < Pow2(2 * w - 1)
    ensures Scale(2 * v + s, w) + (2 * t + bit) == 2 * (Scale(v, w) + Scale(s, w - 1) + t) + bit
  {
    hide Scale, Shr, Low, Or, And, BitLen;
    ScaleAdd(Scale(u, w - 1), v, w);
    ScaleScale(u, w - 1, w);
    ScaleAdd(2 * v, s, w);
    ScaleAdd(v, v, w);
    ScaleMono(v, Pow2(w - 1), w);
    ScalePow2(w - 1, w);
    ScaleMono(0, v, w);
    ScaleMono(0, s, w - 1);
    ScaleMono(s, 1, w - 1);
    ScaleOne(w - 1);
    ScaleOne(w);
  }

  /** What the loop keeps: the finished quotient bits sit in `z` below the unread bits of `n`. */
  ghost predicate Progress(n: nat, d: nat, sr: nat, q: nat, r: nat, carry: nat, z: nat, w: nat) {
    && sr < 2 * w
    && carry < 2 && r < d
    && q == Scale(Low(n, sr), 2 * w - sr) + z
    && Shr(n, sr) == Times(2 * z + carry, d) + r
    && (sr > 0 ==> Comparable(d, r, sr, w))
  }

  /** Why the sign bit of d - r - 1 can be trusted: either d has a clear top bit,
      or only one step is left and r already fills all bits but the top one. */
  ghost predicate Comparable(d: nat, r: nat, sr: nat, w: nat) {
    w >= 1 && (d <= Pow2(2 * w - 1) || (sr == 1 && 2 * r >= Pow2(2 * w - 1)))
  }

  /** Reading one more bit of `n`. */
  lemma NextBit(n: nat, k: nat)
    ensures var t := Shr(Low(n, k + 1), k);
      && 0 <= t < 2
      && Shr(n, k) == 2 * Shr(n, k + 1) + t
      && Low(n, k + 1) == Scale(t, k) + Low(n, k)
  {
    var m, y := Shr(n, k + 1), Low(n, k + 1);
    HighLow(n, k + 1);
    HighLow(y, k);
    assert Pow2(1) == 2;
    ShrBound(y, k, k + 1);
    var t := Shr(y, k);
    ScaleAdd(2 * m, t, k);
    ScaleAdd(m, 0, k);
    HighLowUnique(n, k, 2 * m + t, Low(y, k));
  }

  lemma AppendBit(qq: nat, c: nat, d: nat)
    requires c < 2
    ensures Times(2 * qq + c, d) == 2 * Times(qq, d) + (if c == 1 then d else 0)
  {
    hide Times;
    TimesAdd(2 * qq, c, d);
    TimesDouble(qq, d);
    TimesZero(d);
    TimesOne(d);
  }

  /** The quotient bits collected so far, and the doubled remainder, fit their registers. */
  lemma QuotientFits(n: nat, d: nat, sr: nat, r: nat, qq: nat, w: nat)
    requires n < Pow2(2 * w) && d > 0 && 0 < sr < 2 * w
    requires Shr(n, sr) == Times(qq, d) + r
    ensures qq < Pow2(2 * w - sr)
    ensures 2 * r + 1 < Pow2(2 * w)
  {
    hide Times;
    ShrBound(n, sr, 2 * w);
    TimesNat(qq, d);
    Pow2Mono(2 * w - sr, 2 * w - 1);
  }

  /** How the register q moves: its top bit is the next bit of n. */
  lemma ShiftQ(n: nat, sr: nat, q: nat, z: nat, carry: nat, w: nat)
    requires 0 < sr < 2 * w && carry < 2 && 2 * z + carry < Pow2(2 * w - sr)
    requires q == Scale(Low(n, sr), 2 * w - sr) + z
    ensures Shr(q, 2 * w - 1) == Shr(Low(n, sr), sr - 1)
    ensures Low(2 * q + carry, 2 * w)
         == Scale(Low(n, sr - 1), 2 * w - (sr - 1)) + (2 * z + carry)
  {
    hide Scale, Shr, Low, Or, And, BitLen;
    var W, k := 2 * w, sr - 1;
    var t, s := Shr(Low(n, sr), k), Low(n, k);
    NextBit(n, k);
    ScaleAdd(Scale(t, k), s, W - sr);
    ScaleScale(t, k, W - sr);
    ScaleMono(s, Pow2(k), W - sr);
    ScaleMono(0, s, W - sr);
    ScalePow2(k, W - sr);
    Next(t, W - 1);
    Next(s, W - sr);
    var rest := Scale(s, W - sr) + z;
    HighLowUnique(q, W - 1, t, rest);
    HighLowUnique(2 * q + carry, W, t, 2 * rest + carry);
  }

  /** One trip of the loop keeps `Progress`. */
  lemma Step(n: nat, d: nat, sr: nat, q: nat, r: nat, carry: nat, z: nat, w: nat)
    requires n < Pow2(2 * w) && 0 < d < Pow2(2 * w) && sr > 0
    requires Progress(n, d, sr, q, r, carry, z, w)
    ensures var top := Shr(q, 2 * w - 1);
      var r' := 2 * r + top;
      var c := if r' >= d then 1 else 0;
      && 0 <= top < 2
      && r' < Pow2(2 * w)
      && SignFill(Low(d - r' - 1, 2 * w), 2 * w) == (if c == 1 then Pow2(2 * w) - 1 else 0)
      && Progress(n, d, sr - 1, Low(2 * q + carry, 2 * w),
                  if c == 1 then r' - d else r', c, 2 * z + carry, w)
  {
    hide Times, Scale, Shr, Low, Or, And, BitLen;
    var qq := 2 * z + carry;
    QuotientFits(n, d, sr, r, qq, w);
    ShiftQ(n, sr, q, z, carry, w);
    NextBit(n, sr - 1);
    var r' := 2 * r + Shr(q, 2 * w - 1);
    SignCompare(d, r', 2 * w);
    AppendBit(qq, if r' >= d then 1 else 0, d);
  }

  // ----- Aligning the operands -----

  /** Dividing out `sr` places leaves less than the divisor, but all of its bits except the first. */
  lemma Aligned(n: nat, d: nat, sr: nat, w: nat)
    requires 0 < n < Pow2(2 * w) && 0 < d < Pow2(2 * w) && w >= 1
    requires sr == 1 + BitLen(n) - BitLen(d) && 1 <= sr < 2 * w
    ensures 0 <= Shr(n, sr) < d
    ensures Comparable(d, Shr(n, sr), sr, w)
  {
    hide Scale, Shr, Low, BitLen;
    BitLenBounds(n);
    BitLenBounds(d);
    BitLenFits(n, 2 * w);
    ShrBound(n, sr, BitLen(n));
    if d > Pow2(2 * w - 1) {
      if BitLen(d) < 2 * w { Pow2Mono(BitLen(d), 2 * w - 1); }
      assert sr == 1;
      One(n);
    }
  }

  /** The shifted-out division by a power of two. */
  lemma ShiftDivision(n: Halves, sr: nat, w: nat)
    requires n.Fits(w) && sr <= w
    ensures IsDivision(n.All(w), Pow2(sr),
                       Halves(Shr(n.high, sr), Or(Shl(n.high, w - sr, w), Shr(n.low, sr))).All(w),
                       Low(n.low, sr))
  {
    Splice(n, sr, w);
    HighLow(n.All(w), sr);
    ScaleIsTimes(Shr(n.All(w), sr), sr);
  }

  lemma CtzFits(d: nat, w: nat)
    requires 0 < d < Pow2(w) && d == Pow2(Ctz(d))
    ensures Ctz(d) < w
  {
    if Ctz(d) >= w { Pow2Mono(w, Ctz(d)); }
  }

  /** Dividing whole high halves, the low half of the divisor being zero. */
  lemma HighDivision(n: Halves, dh: nat, quot: nat, rh: nat, w: nat)
    requires IsDivision(n.high, dh, quot, rh) && n.low < Pow2(w)
    ensures IsDivision(n.All(w), Halves(dh, 0).All(w), quot, Halves(rh, n.low).All(w))
  {
    hide Times;
    ScaleAdd(Times(quot, dh), rh, w);
    ScaleIsTimes(Times(quot, dh), w);
    ScaleIsTimes(dh, w);
    TimesAssoc(quot, dh, Pow2(w));
    ScaleMono(rh, dh, w);
  }

  lemma WordDivision(x: nat, y: nat)
    requires y > 0
    ensures x / y >= 0 && x % y >= 0 && IsDivision(x, y, x / y, x % y)
  {
    TimesComm(x / y, y);
  }

  /** A half that is not a power of two has at least two significant bits. */
  lemma NotPowerOfTwo(d: nat)
    requires d > 0 && d != Pow2(Ctz(d))
    ensures BitLen(d) >= 2
  {
    assert Ctz(1) == 0 && Pow2(0) == 1;
    assert BitLen(d / 2) >= 1;
  }

  // ----- The two routines -----

  /** `d & s` is all of `d` or nothing, and `s & 1` is the carry, for a sign fill `s`. */
  lemma MaskBySign(d: nat, s: nat, width: nat)
    requires width >= 1 && d < Pow2(width) && (s == 0 || s == Pow2(width) - 1)
    ensures And(d, s) == if s == 0 then 0 else d
    ensures And(s, 1) == if s == 0 then 0 else 1
  {
    AndMask(d, width);
    AndZero(d);
    AndZero(1);
    assert Pow2(1) == 2;
    AndMask(s, 1);
    LowSmall(d, width);
    assert Low(s, 1) == s % 2 by { assert Low(s / 2, 0) == 0; }
  }

  lemma FinalQuotient(n: nat, d: nat, q: nat, r: nat, carry: nat, z: nat, w: nat)
    requires w >= 1 && n < Pow2(2 * w) && d > 0
    requires Progress(n, d, 0, q, r, carry, z, w)
    ensures IsDivision(n, d, Or(Shl(q, 1, 2 * w), carry), r)
  {
    hide Times;
    assert q == z by { ScaleOne(2 * w); }
    TimesNat(2 * z + carry, d);
    assert Scale(q, 1) == 2 * q by { assert Scale(q, 0) == q; }
    LowSmall(2 * q, 2 * w);
    assert Pow2(1) == 2;
    assert Low(2 * q, 1) == 0 by { assert Low(2 * q / 2, 0) == 0; }
    OrDisjoint(2 * q, carry, 1);
  }

  /** The main loop of both files. */
  method ShiftSubtract(n: nat, d: nat, sr0: nat, q0: Halves, r0: Halves, w: nat) returns (out: Outcome)
    requires w >= 1 && 0 < n < Pow2(2 * w) && 0 < d < Pow2(2 * w)
    requires Seeded(n, sr0, q0, r0, w)
    requires sr0 == 1 + BitLen(n) - BitLen(d)
    ensures out.Done? && IsDivision(n, d, out.quot, out.rem)
  {
    hide Times, Pow2, Scale, Shr, Low, Or, And, BitLen;
    var sr, q, r, carry := sr0, q0, r0, 0;
    ghost var z := 0;
    Aligned(n, d, sr, w);
    TimesZero(d);
    while sr > 0
      invariant q.Fits(w) && r.Fits(w)
      invariant Progress(n, d, sr, q.All(w), r.All(w), carry, z, w)
    {
      Step(n, d, sr, q.All(w), r.All(w), carry, z, w);
      ShiftInOk(q, carry, w);
      ShiftInOk(r, Shr(q.high, w - 1), w);
      LowSmall(2 * r.All(w) + Shr(q.high, w - 1), 2 * w);
      z := 2 * z + carry;
      r := ShiftIn(r, Shr(q.high, w - 1), w);
      q := ShiftIn(q, carry, w);
      AllBound(r, w);
      var s := SignFill(Low(d - r.All(w) - 1, 2 * w), 2 * w);
      MaskBySign(d, s, 2 * w);
      carry := And(s, 1);
      LowSmall(r.All(w) - And(d, s), 2 * w);
      SplitAll(r.All(w) - And(d, s), w);
      r := Split(Low(r.All(w) - And(d, s), 2 * w), w);
      sr := sr - 1;
    }
    FinalQuotient(n, d, q.All(w), r.All(w), carry, z, w);
    out := Done(Or(Shl(q.All(w), 1, 2 * w), carry), r.All(w));
  }

  /** `__udivmoddi4` (w = 32) and `__udivmodti4` (w = 64): every division by a nonzero
      divisor is exact, and a division by zero traps. */
  method UDivMod(a: nat, b: nat, w: nat) returns (out: Outcome)
    requires w >= 2 && a < Pow2(2 * w) && b < Pow2(2 * w)
    ensures out.Trap? <==> b == 0
    ensures out.Done? ==> IsDivision(a, b, out.quot, out.rem)
  {
    hide Times, Pow2, Scale, Shr, Low, Or, And, BitLen, Ctz;
    TimesZero(b);
    var n, d := Split(a, w), Split(b, w);
    SplitAll(a, w);
    SplitAll(b, w);
    AllBound(n, w);
    AllBound(d, w);
    if n.high == 0 {
      if d.high == 0 {
        if d.low == 0 { return Trap; }
        WordDivision(n.low, d.low);
        return Done(n.low / d.low, n.low % d.low);
      }
      return Done(0, n.low);
    }
    if d.low == 0 && d.high == 0 { return Trap; }
    if d.low == 0 && n.low == 0 {
      WordDivision(n.high, d.high);
      HighDivision(n, d.high, n.high / d.high, n.high % d.high, w);
      return Done(n.high / d.high, Halves(n.high % d.high, 0).All(w));
    }
    if d.low == 0 {
      out := DivideByHigh(n, d, w);
    } else if d.high == 0 {
      out := DivideByLow(n, d, w);
    } else {
      out := DivideFull(n, d, w);
    }
  }

  /** The branch for a divisor whose low half is zero. */
  method DivideByHigh(n: Halves, d: Halves, w: nat) returns (out: Outcome)
    requires w >= 2 && n.Fits(w) && d.Fits(w) && n.high > 0 && d.high > 0 && d.low == 0
    ensures out.Done? && IsDivision(n.All(w), d.All(w), out.quot, out.rem)
  {
    hide Times, Pow2, Scale, Shr, Low, Or, And, BitLen, Ctz;
    TimesZero(d.All(w));
    AllBound(n, w);
    AllBound(d, w);
    PowerOfTwoTest(d.high);
    if And(d.high, d.high - 1) == 0 {
      AndMask(n.high, Ctz(d.high));
      HighLow(n.high, Ctz(d.high));
      ScaleIsTimes(Shr(n.high, Ctz(d.high)), Ctz(d.high));
      HighDivision(n, d.high, Shr(n.high, Ctz(d.high)), Low(n.high, Ctz(d.high)), w);
      return Done(Shr(n.high, Ctz(d.high)), Halves(And(n.high, d.high - 1), n.low).All(w));
    }
    BitLenHigh(n.high, n.low, w);
    BitLenHigh(d.high, d.low, w);
    BitLenFits(n.high, w);
    NotPowerOfTwo(d.high);
    var lead := Clz(d.high, w) - Clz(n.high, w);
    if lead < 0 || lead > w - 2 {
      ShorterIsSmaller(n.All(w), d.All(w));
      return Done(0, n.All(w));
    }
    var sr := lead + 1;
    var (q, r) := SeedBelow(n, sr, w);
    SeedBelowOk(n, sr, w);
    out := ShiftSubtract(n.All(w), d.All(w), sr, q, r, w);
  }

  /** The branch for a one-word divisor. */
  method DivideByLow(n: Halves, d: Halves, w: nat) returns (out: Outcome)
    requires w >= 2 && n.Fits(w) && d.Fits(w) && n.high > 0 && d.high == 0 && d.low > 0
    ensures out.Done? && IsDivision(n.All(w), d.All(w), out.quot, out.rem)
  {
    hide Times, Pow2, Scale, Shr, Low, Or, And, BitLen, Ctz;
    AllBound(n, w);
    AllBound(d, w);
    PowerOfTwoTest(d.low);
    if And(d.low, d.low - 1) == 0 {
      CtzFits(d.low, w);
      var s := Ctz(d.low);
      ShiftDivision(n, s, w);
      AndMask(n.low, s);
      if d.low == 1 {
        DivideByOne(n.All(w), n.low);
        return Done(n.All(w), And(n.low, d.low - 1));
      }
      return Done(Halves(Shr(n.high, s), Or(Shl(n.high, w - s, w), Shr(n.low, s))).All(w),
                  And(n.low, d.low - 1));
    }
    BitLenHigh(n.high, n.low, w);
    BitLenFits(n.high, w);
    BitLenFits(d.low, w);
    BitLenBounds(n.high);
    NotPowerOfTwo(d.low);
    var sr := 1 + w + Clz(d.low, w) - Clz(n.high, w);
    var q, r;
    if sr == w {
      q, r := Halves(n.low, 0), Halves(0, n.high);
      SeedEqualOk(n, w);
    } else if sr < w {
      q, r := SeedBelow(n, sr, w).0, SeedBelow(n, sr, w).1;
      SeedBelowOk(n, sr, w);
    } else {
      q, r := SeedAbove(n, sr, w).0, SeedAbove(n, sr, w).1;
      SeedAboveOk(n, sr, w);
    }
    out := ShiftSubtract(n.All(w), d.All(w), sr, q, r, w);
  }

  /** The branch for two full double words. */
  method DivideFull(n: Halves, d: Halves, w: nat) returns (out: Outcome)
    requires w >= 2 && n.Fits(w) && d.Fits(w) && n.high > 0 && d.high > 0
    ensures out.Done? && IsDivision(n.All(w), d.All(w), out.quot, out.rem)
  {
    hide Times, Pow2, Scale, Shr, Low, Or, And, BitLen, Ctz;
    TimesZero(d.All(w));
    AllBound(n, w);
    AllBound(d, w);
    BitLenHigh(n.high, n.low, w);
    BitLenHigh(d.high, d.low, w);
    BitLenFits(n.high, w);
    BitLenBounds(d.high);
    var lead := Clz(d.high, w) - Clz(n.high, w);
    if lead < 0 || lead > w - 1 {
      ShorterIsSmaller(n.All(w), d.All(w));
      return Done(0, n.All(w));
    }
    var sr := lead + 1;
    var q, r;
    if sr == w {
      q, r := Halves(n.low, 0), Halves(0, n.high);
      SeedEqualOk(n, w);
    } else {
      q, r := SeedBelow(n, sr, w).0, SeedBelow(n, sr, w).1;
      SeedBelowOk(n, sr, w);
    }
    out := ShiftSubtract(n.All(w), d.All(w), sr, q, r, w);
  }

  lemma DivideByOne(n: nat, low: nat)
    ensures IsDivision(n, 1, n, And(low, 0))
  {
    TimesOne(n);
    AndZero(low);
  }
}
