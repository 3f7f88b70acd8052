/** `__divsf3`: binary32 division by a Newton-Raphson reciprocal. */
module DivSf3 {
  import opened Bits
  import opened Products
  import opened Binary32

  const W31: int := 0x8000_0000
  const W32: int := 0x1_0000_0000
  /** 2^63: a reciprocal x of q is exact when x * q is this. */
  const ONE: int := 0x8000_0000_0000_0000

  function U32(x: int): nat { x % W32 }

  // ----- The reciprocal -----

  /** 2 - x*q in Q31. */
  function Correction(x: int, q: int): nat { U32(0 - x * q / W32) }

  /** One Newton step before it is truncated to its register. */
  function Refined(x: int, q: int): int { x * Correction(x, q) / W31 }

  /** How far x * q falls short of one. */
  ghost function Error(x: int, q: int): int { ONE - Times(x, q) }

  lemma SquareBound(e: int, m: int)
    requires -m <= e <= m
    ensures 0 <= Times(e, e) <= Times(m, m)
  {
    hide Times;
    var a := if e < 0 then -e else e;
    NegSquare(e);
    TimesNat(a, a);
    TimesMono(a, m, a);
    TimesMono(a, m, m);
  }

  lemma NegSquare(e: int)
    ensures Times(-e, -e) == Times(e, e)
  {
  }

  lemma Swap(x: int, q: int, c: int)
    ensures Times(Times(x, c), q) == Times(Times(x, q), c)
  {
    assert x * c * q == x * q * c;
  }

  /** The algebra of x * (2 - x*q), with the remainders of its truncations. */
  lemma NewtonIdentity(x: int, q: int, c: int, y: int, h: int, g: int)
    requires W32 * c == 2 * ONE - Times(x, q) + g
    requires Times(x, c) == W31 * y + h
    ensures ONE * Error(y, q)
         == Times(Error(x, q), Error(x, q)) + W32 * Times(h, q) - Times(Times(x, q), g)
  {
    hide Times;
    var p := Times(x, q);
    Swap(x, q, c);
    TimesAdd(W31 * y, h, q);
    TimesLit(y, q);
    TimesLit(p, c);
    assert W32 * Times(p, c) == 2 * ONE * p - Times(p, p) + Times(p, g) by {
      TimesAdd(2 * ONE - p, g, p);
      TimesSub(2 * ONE, p, p);
      assert Times(p, W32 * c) == Times(p, 2 * ONE - p + g);
    }
    assert Times(ONE - p, ONE - p) == ONE * ONE - 2 * ONE * p + Times(p, p) by {
      TimesSub(ONE, p, ONE - p);
      TimesSub(ONE, p, p);
      TimesLit(ONE - p, c);
    }
  }

  lemma TimesLit(x: int, y: int)
    ensures Times(W31 * x, y) == W31 * Times(x, y)
    ensures Times(x, W32 * y) == W32 * Times(x, y)
    ensures Times(x, ONE) == ONE * x && Times(ONE, x) == ONE * x
    ensures Times(2 * ONE, x) == 2 * ONE * x && Times(x, 2 * ONE) == 2 * ONE * x
  {
  }

  /** What the two truncations of a step cost: the new error is the old one squared,
      plus less than q, minus less than 2^32 * (x*q). */
  lemma StepError(x: nat, q: nat) returns (h: int, g: int)
    requires W32 <= Times(x, q) < W32 * W32
    ensures 0 <= h < W31 && 0 <= g < W32
    ensures Refined(x, q) >= 0
    ensures ONE * Error(Refined(x, q), q)
         == Times(Error(x, q), Error(x, q)) + W32 * Times(h, q) - Times(Times(x, q), g)
  {
    hide Times, Error;
    var p := Times(x, q);
    TimesIs(x, q);
    var c := Correction(x, q);
    g := p % W32;
    assert c == W32 - p / W32;
    TimesNat(x, c);
    TimesIs(x, c);
    h := Times(x, c) % W31;
    NewtonIdentity(x, q, c, Refined(x, q), h, g);
  }

  /** Bounds on the error after a step, from a bound m on the error before it. */
  lemma StepBound(x: nat, q: nat, m: int)
    requires q < W32 && -m <= Error(x, q) <= m && m < ONE / 2
    ensures Refined(x, q) >= 0
    ensures ONE * Error(Refined(x, q), q) <= Times(m, m) + ONE * q
    ensures ONE * Error(Refined(x, q), q) >= -Times(ONE - Error(x, q), W32 - 1)
  {
    hide Times, Refined;
    var h, g := StepError(x, q);
    SquareBound(Error(x, q), m);
    var p := Times(x, q);
    TimesNat(p, g);
    TimesMono(g, W32 - 1, p);
    TimesNat(h, q);
    TimesMono(h, W31, q);
    TimesIs(W31, q);
  }

  /** q is the divisor's significand as a Q31 number: a multiple of 256 in [2^31, 2^32). */
  ghost predicate IsQ31(q: nat) { W31 <= q < W32 && q % 256 == 0 }

  /** The linear first guess is within 9 percent. */
  lemma FirstGuess(q: nat)
    requires IsQ31(q)
    ensures var x := U32(0x7504_f333 - q);
      -791240234141483008 <= Error(x, q) <= 791240234141483008
  {
    hide Times;
    var c := W32 + 0x7504_f333;
    var x := c - q;
    // (q - 2^31) * (2^32 - q) >= 0 bounds x*q below, (2q - c)^2 >= 0 above
    TimesNat(q - W31, W32 - q);
    TimesSub(q, W31, W32 - q);
    TimesSub(W32, q, q);
    TimesSub(c, q, q);
    TimesLit(W32 - q, q);
    TimesFixed(q);
    Square(2 * q - c);
    TimesSub(2 * q, c, 2 * q - c);
    TimesSub(2 * q, c, 2 * q);
    TimesSub(2 * q, c, c);
    TimesDouble(q, 2 * q);
    TimesDouble(q, q);
    TimesDouble(q, c);
    TimesComm(c, 2 * q);
    TimesComm(c, q);
    TimesIs(c, c);
  }

  lemma TimesFixed(q: int)
    ensures Times(W31, q) == W31 * q && Times(W32, q) == W32 * q && Times(q, W32) == W32 * q
    ensures Times(W31, W32 - q) == W31 * (W32 - q)
    ensures Times(q, W32 - q) == W32 * q - Times(q, q)
    ensures Times(W32 + 0x7504_f333, q) == (W32 + 0x7504_f333) * q
  {
  }

  lemma Square(x: int)
    ensures Times(x, x) >= 0
  {
  }

  /** What is known of the reciprocal after 0, 1, 2 and 3 steps. */
  ghost predicate Approximates(x: int, q: int, low: int, high: int) {
    0 <= x < W32 && low <= Error(x, q) <= high
  }

  /** A step that starts close enough does not leave its register, except at q = 2^31. */
  lemma StepStays(x: nat, q: nat, low: int, high: int, high': int)
    requires IsQ31(q) && q > W31
    requires Approximates(x, q, low, high)
    requires -791240234141483008 <= low && high <= 791240234141483008 && -low <= high
    requires high * high + ONE * W32 <= ONE * high'
    ensures U32(Refined(x, q)) == Refined(x, q)
    ensures Approximates(Refined(x, q), q, -0x1_2000_0000, high')
    ensures low >= -0x1_2000_0000 ==> Error(Refined(x, q), q) >= -0x1_0000_0008
  {
    hide Times, Refined;
    StepBound(x, q, high);
    TimesIs(high, high);
    var e, y := Error(x, q), Refined(x, q);
    TimesIs(ONE - e, W32 - 1);
    if y >= W32 {
      TimesMono(W32, y, q);
      TimesFixed(q);
    }
  }

  /** At q = 2^31 the third step overflows its register; the last subtraction wraps back. */
  lemma UnitReciprocal()
    ensures U32(0x7504_f333 - W31) == 0xf504_f333
    ensures Refined(0xf504_f333, W31) == 0xff87_6cce
    ensures Refined(0xff87_6cce, W31) == 0xffff_c735
    ensures Refined(0xffff_c735, W31) == W32
  {
    UnitStep(0xf504_f333, 0x857d_8667, 0xf504_f333 * 0x857d_8667);
    UnitStep(0xff87_6cce, 0x803c_4999, 0xff87_6cce * 0x803c_4999);
    UnitStep(0xffff_c735, 0x8000_1c66, 0xffff_c735 * 0x8000_1c66);
  }

  lemma UnitStep(x: nat, c: nat, product: nat)
    requires 1 < x < W32 && c == W32 - x / 2 && Times(x, c) == product
    ensures Refined(x, W31) == product / W31
  {
    hide Times, Refined, Correction;
    HalfCorrection(x);
    RefinedIs(x, W31);
  }

  lemma RefinedIs(x: int, q: int)
    ensures Refined(x, q) == Times(x, Correction(x, q)) / W31
  {
  }

  lemma HalfCorrection(x: nat)
    requires 1 < x < W32
    ensures Correction(x, W31) == W32 - x / 2
  {
    assert x * W31 / W32 == x / 2;
  }

  /** The reciprocal is strictly below the true one, and close to it. */
  method Reciprocal(q: nat) returns (r: nat)
    requires IsQ31(q)
    ensures r < W32
    ensures 0 < Error(r, q) <= 40_000_000_000
  {
    hide Times, Refined;
    var reciprocal: int := U32(0x7504_f333 - q);
    FirstGuess(q);
    if q == W31 {
      UnitReciprocal();
      TimesFixed(0xffff_fffe);
      TimesComm(W31, 0xffff_fffe);
    } else {
      var x := reciprocal;
      StepStays(x, q, -791240234141483008, 791240234141483008, 67877685648668756);
      x := Refined(x, q);
      StepStays(x, q, -0x1_2000_0000, 67877685648668756, 499537458175863);
      x := Refined(x, q);
      StepStays(x, q, -0x1_2000_0000, 499537458175863, 31349895920);
      x := Refined(x, q);
      TimesSub(x, 2, q);
      TimesDouble(1, q);
      TimesOne(q);
      Below(x, q);
    }
    reciprocal := U32(Refined(reciprocal, q));
    reciprocal := U32(Refined(reciprocal, q));
    reciprocal := U32(Refined(reciprocal, q));
    r := U32(reciprocal - 2);
  }

  lemma Below(x: nat, q: nat)
    requires IsQ31(q) && Error(x, q) <= ONE / 2
    ensures x >= 2
  {
    hide Times;
    if x < 2 {
      TimesMono(x, 1, q);
      TimesOne(q);
    }
  }

  // ----- The quotient of two significands -----

  ghost predicate Significand(x: int) { IMPLICIT <= x < 2 * IMPLICIT }

  /** r approximates 2^55 / b from below. */
  ghost predicate IsReciprocal(r: nat, b: nat) {
    r < W32 && 0 < Error(r, 256 * b) <= 40_000_000_000
  }

  /** The truncated product of a and the reciprocal is at most one unit (and a bit) too small. */
  lemma TruncatedQuotient(a: nat, b: nat, r: nat)
    requires Significand(a) && Significand(b) && IsReciprocal(r, b)
    ensures 0 <= Times(r, 2 * a) < W32 * W32
    ensures var quotient := Times(r, 2 * a) / W32;
      && IMPLICIT <= quotient < 4 * IMPLICIT
      && 0 < 2 * IMPLICIT * a - Times(quotient, b) <= b + 1_400_000
  {
    hide Times;
    var p := Times(r, 2 * a);
    var quotient, f := p / W32, p % W32;
    var e := Error(r, 256 * b);
    TimesNat(r, 2 * a);
    TimesMono(r, W32, 2 * a);
    TimesIs(W32, 2 * a);
    // 2^40 * (2^24 * a - quotient * b) = e * 2a + 256 * f * b
    Swap(r, b, 2 * a);
    TimesAdd(W32 * quotient, f, b);
    Constants(quotient, b);
    Constants(r, b);
    Constants(Times(r, b), 2 * a);
    TimesSub(ONE, e, 2 * a);
    TimesLit(2 * a, b);
    TimesNat(e, 2 * a);
    TimesMono(e, 40_000_000_000, 2 * a);
    TimesIs(40_000_000_000, 2 * a);
    TimesNat(f, b);
    TimesMono(f, W32, b);
    TimesIs(W32, b);
    if quotient >= 4 * IMPLICIT {
      TimesMono(4 * IMPLICIT, quotient, b);
      TimesIs(4 * IMPLICIT, b);
    }
    if r < W31 {
      TimesMono(r, W31 - 1, 256 * b);
      TimesIs(W31 - 1, 256 * b);
    }
    TimesMono(W31, r, 2 * a);
    TimesIs(W31, 2 * a);
  }

  lemma Constants(x: int, y: int)
    ensures Times(W32 * x, y) == W32 * Times(x, y)
    ensures Times(x, 256 * y) == 256 * Times(x, y) && Times(256 * x, y) == 256 * Times(x, y)
  {
    hide Times;
    TimesDouble(x, y);
    Const256(x, y);
    TimesLit(2 * x, y);
    TimesDouble(x, y);
    assert W32 * x == W31 * (2 * x);
  }

  lemma Const256(x: int, y: int)
    ensures Times(x, 256 * y) == 256 * Times(x, y) && Times(256 * x, y) == 256 * Times(x, y)
  {
  }

  /** A number with more factors of two than b can have is no odd multiple of b: ties cannot occur. */
  lemma {:induction false} OddFactor(k: nat, b: nat, s: nat)
    requires Low(Times(2 * k + 1, b), s) == 0
    ensures Low(b, s) == 0
  {
    hide Times, Low;
    if s > 0 {
      TimesAdd(2 * k, 1, b);
      TimesDouble(k, b);
      TimesOne(b);
      LowFirst(Times(2 * k + 1, b), s);
      var c := b / 2;
      assert b == 2 * c;
      TimesDouble(2 * k + 1, c);
      LowFirst(b, s);
      OddFactor(k, c, s - 1);
    } else {
      LowFirst(b, s);
    }
  }

  lemma LowFirst(x: int, s: nat)
    ensures Low(x, s) == if s == 0 then 0 else 2 * Low(x / 2, s - 1) + x % 2
  {
  }

  lemma NoTie(x: nat, k: nat, b: nat)
    requires Significand(b)
    ensures 2 * IMPLICIT * x != Times(2 * k + 1, b)
  {
    hide Times, Low, Scale, Pow2;
    Literals();
    ScaleIsTimes(x, 24);
    TimesIs(x, 2 * IMPLICIT);
    HighLowUnique(2 * IMPLICIT * x, 24, x, 0);
    if 2 * IMPLICIT * x == Times(2 * k + 1, b) {
      OddFactor(k, b, 24);
      LowSmall(b, 24);
    }
  }

  /** c is the integer nearest to n/b, and not by a tie. */
  ghost predicate Nearest(n: nat, b: nat, c: nat) {
    Times(2 * c - 1, b) < 2 * n < Times(2 * c + 1, b)
  }

  /** The residual test picks the nearer of quotient and quotient + 1. */
  lemma ResidualTest(x: nat, b: nat, quotient: nat, residual: int)
    requires Significand(b) && x % IMPLICIT == 0
    requires residual == x - Times(quotient, b) && 0 < 2 * residual < 3 * b
    ensures Nearest(x, b, if 2 * residual > b then quotient + 1 else quotient)
    ensures x > Times(quotient, b)
  {
    hide Times;
    var y := x / IMPLICIT;
    NoTie(y, quotient, b);
    TimesAdd(2 * quotient, 1, b);
    TimesAdd(2 * quotient + 1, 2, b);
    TimesSub(2 * quotient, 1, b);
    TimesDouble(quotient, b);
    TimesDouble(1, b);
    TimesOne(b);
  }

  /** The quotient of the significands scaled by 2^k, k = 23 or 24, with its exact remainder. */
  ghost predicate QuotientOf(a: nat, b: nat, k: nat, quotient: nat, residual: nat) {
    && (k == 24 ==> a < b || (a == b && quotient == 2 * IMPLICIT - 1))
    && (k == 23 ==> a >= b)
    && Significand(quotient)
    && residual == Shifted(a, k) - Times(quotient, b)
    && 0 < 2 * residual < 3 * b
  }

  /** a << k, k = 23 or 24, as a number. */
  ghost function Shifted(a: nat, k: nat): nat {
    if k == 24 then 2 * IMPLICIT * a else IMPLICIT * a
  }

  method DivideSignificands(a: nat, b: nat) returns (k: nat, quotient: nat, residual: nat)
    requires Significand(a) && Significand(b)
    ensures (k == 23 || k == 24) && QuotientOf(a, b, k, quotient, residual)
  {
    hide Times, U32;
    Fits32(b * 256);
    var q31b := U32(b * 256);
    var reciprocal := Reciprocal(q31b);
    TimesIs(reciprocal, 2 * a);
    TruncatedQuotient(a, b, reciprocal);
    Fits32(Times(reciprocal, 2 * a) / W32);
    quotient := U32(reciprocal * (2 * a) / W32);
    ghost var whole := quotient;
    if quotient < 2 * IMPLICIT {
      k := 24;
      TimesIs(quotient, b);
      Difference(a * 0x100_0000, quotient * b);
      residual := U32(U32(a * 0x100_0000) - U32(quotient * b));
      BelowOne(a, b, quotient);
    } else {
      k := 23;
      quotient := quotient / 2;
      TimesIs(quotient, b);
      Halve(whole, b);
      Difference(a * 0x80_0000, quotient * b);
      residual := U32(U32(a * 0x80_0000) - U32(quotient * b));
      if a < b {
        TimesMono(2 * IMPLICIT, whole, b);
        TimesIs(2 * IMPLICIT, b);
      }
    }
  }

  lemma Fits32(x: int)
    requires 0 <= x < W32
    ensures U32(x) == x
  {
  }

  /** Differences of truncated products are exact when the true difference fits. */
  lemma Difference(x: int, y: int)
    requires 0 <= x - y < W32
    ensures U32(U32(x) - U32(y)) == x - y
  {
  }

  lemma Halve(whole: nat, b: nat)
    ensures Times(whole, b) == 2 * Times(whole / 2, b) + (if whole % 2 == 1 then b else 0)
  {
    hide Times;
    TimesAdd(2 * (whole / 2), whole % 2, b);
    TimesDouble(whole / 2, b);
    TimesZero(b);
    TimesOne(b);
  }

  /** A quotient below one comes from a < b, or from equal significands. */
  lemma BelowOne(a: nat, b: nat, quotient: nat)
    requires Significand(a) && Significand(b) && quotient < 2 * IMPLICIT
    requires 0 < 2 * IMPLICIT * a - Times(quotient, b) <= b + 1_400_000
    ensures a <= b
    ensures a == b ==> quotient == 2 * IMPLICIT - 1
  {
    hide Times;
    TimesMono(quotient, 2 * IMPLICIT - 1, b);
    TimesIs(2 * IMPLICIT - 1, b);
    if quotient < 2 * IMPLICIT - 1 {
      TimesMono(quotient, 2 * IMPLICIT - 2, b);
      TimesIs(2 * IMPLICIT - 2, b);
    }
  }

  // ----- Exponents -----

  /** A magnitude is its significand scaled by its exponent, which may be below 1
      for a subnormal that has been normalized. */
  ghost predicate Unpacked(v: int, sig: int, e: int) {
    -22 <= e <= 254 && Significand(sig) && Scale(v, 30) == Scale(sig, e + 29)
  }

  lemma UnpackedNormal(m: nat)
    requires IMPLICIT <= m < INFINITY
    ensures Value(m) >= 0 && Unpacked(Value(m), IMPLICIT + m % IMPLICIT, m / IMPLICIT)
  {
    hide Scale;
    var sig, e := IMPLICIT + m % IMPLICIT, m / IMPLICIT;
    ScaleMono(0, sig, e - 1);
    ScaleOne(e - 1);
    ScaleScale(sig, e - 1, 30);
  }

  lemma UnpackedSubnormal(m: nat, shift: nat)
    requires 0 < m < IMPLICIT && 1 <= shift <= 23 && Significand(Scale(m, shift))
    ensures Value(m) == m && Unpacked(m, Scale(m, shift), 1 - shift)
  {
    hide Scale;
    ScaleScale(m, shift, 30 - shift);
  }

  lemma {:induction false} ScaleInjective(x: int, y: int, k: nat)
    requires Scale(x, k) == Scale(y, k)
    ensures x == y
  {
    if k > 0 { ScaleInjective(x, y, k - 1); }
  }

  lemma ScaleTimes(x: int, k: nat, y: int)
    ensures Times(Scale(x, k), y) == Scale(Times(x, y), k)
    ensures Times(y, Scale(x, k)) == Scale(Times(y, x), k)
  {
    hide Times, Scale, Pow2;
    ScaleIsTimes(x, k);
    ScaleIsTimes(Times(x, y), k);
    Swap(x, y, Pow2(k));
    TimesComm(Scale(x, k), y);
    TimesComm(x, y);
  }

  lemma ShiftedIsScale(a: nat, k: nat)
    requires k == 23 || k == 24
    ensures Shifted(a, k) == Scale(a, k)
  {
    hide Times, Scale, Pow2;
    Literals();
    ScaleIsTimes(a, k);
    TimesIs(a, Pow2(k));
  }

  /** |a| / |b| in units of 2^-149 is the quotient of the shifted significands times 2^(w-1). */
  ghost predicate Target(num: int, den: int, n: int, b: int, w: int) {
    w >= -400 && Scale(Times(num, b), 500) == Scale(Times(n, den), w + 499)
  }

  lemma TargetOf(va: nat, sa: nat, ea: int, vb: nat, sb: nat, eb: int, k: nat)
    requires Unpacked(va, sa, ea) && Unpacked(vb, sb, eb) && (k == 23 || k == 24)
    ensures Target(Units(va), vb, Shifted(sa, k), sb, ea - eb + 150 - k)
  {
    hide Times, Scale;
    var x, y, p := Times(va, sb), Times(sa, vb), Times(sa, sb);
    ShiftedIsScale(sa, k);
    ScaleTimes(va, 149, sb);
    ScaleTimes(sa, k, vb);
    ScaleTimes(va, 30, sb);
    ScaleTimes(sa, ea + 29, sb);
    ScaleTimes(vb, 30, sa);
    ScaleTimes(sb, eb + 29, sa);
    ScaleScale(x, 149, 500);
    ScaleScale(x, 30, 619);
    ScaleScale(p, ea + 29, 619);
    ScaleScale(y, k, ea - eb + 649 - k);
    ScaleScale(y, 30, ea - eb + 619);
    ScaleScale(p, eb + 29, ea - eb + 619);
  }

  lemma TargetNormal(num: int, den: int, n: int, b: int, w: int)
    requires Target(num, den, n, b, w) && w >= 1
    ensures Times(num, b) == Times(Scale(n, w - 1), den)
  {
    hide Times, Scale;
    ScaleTimes(n, w - 1, den);
    ScaleScale(Times(n, den), w - 1, 500);
    ScaleInjective(Times(num, b), Scale(Times(n, den), w - 1), 500);
  }

  lemma TargetTiny(num: nat, den: int, n: int, b: nat, w: int)
    requires Target(num, den, n, b, w) && w <= 0
    ensures 2 * Times(num, b) <= Times(n, den)
    ensures w < 0 ==> 4 * Times(num, b) <= Times(n, den)
    ensures w == 0 ==> 2 * Times(num, b) == Times(n, den)
  {
    hide Times, Scale;
    var x, y, d := Times(num, b), Times(n, den), -w;
    ScaleScale(x, d + 1, 499 - d);
    ScaleInjective(Scale(x, d + 1), y, 499 - d);
    TimesNat(num, b);
    ScaleNext(x, d);
    ScaleMono(x, x, d);
    if d == 0 {
      ScaleZero(x);
    } else {
      ScaleNext(x, d - 1);
      ScaleMono(x, x, d - 1);
    }
  }

  // ----- The whole routine -----

  /** What the routine delivers for a nonzero finite quotient |a|/|b| (magnitudes in units of
      2^-149): the correctly rounded magnitude, or zero below the smallest normal number. */
  ghost predicate FlushedQuotient(va: nat, vb: nat, m: nat) {
    if Units(va) < Times(IMPLICIT, vb) then m == 0 else Rounds(Units(va), vb, m)
  }

  /** Flushing to zero is the correct rounding exactly for quotients of at most 2^-150. */
  lemma FlushIsRounding(num: nat, den: nat)
    requires den > 0 && num < Times(IMPLICIT, den)
    ensures Rounds(num, den, 0) <==> 2 * num <= den
  {
    hide Times, Scale, Value;
    assert Value(0) == 0 && Value(1) == 1 by { SmallValues(); }
    TimesZero(den);
    TimesOne(den);
    if 2 * num <= den {
      MidpointsRound(num, den, 0);
    } else {
      var zero, one := Distance(0, num, den), Distance(1, num, den);
      ScaledMono(1, INFINITY - 1, den);
      ScaledMono(1, INFINITY, den);
    }
  }

  /** What the routine delivers is the rounded quotient if and only if the quotient is at least
      2^-126 or at most 2^-150. */
  lemma DeliveredIsRounded(va: nat, vb: nat, m: nat)
    requires vb > 0 && FlushedQuotient(va, vb, m)
    ensures Rounds(Units(va), vb, m) <==> Units(va) >= Times(IMPLICIT, vb) || 2 * Units(va) <= vb
  {
    hide Times, Rounds, Units;
    if Units(va) < Times(IMPLICIT, vb) { FlushIsRounding(Units(va), vb); }
  }

  lemma SmallValues()
    ensures Value(0) == 0 && Value(1) == 1
  {
  }

  /** Rounding the significand up may close the binade, and then the exponent takes the carry. */
  lemma NormalResult(va: nat, vb: nat, n: nat, b: nat, quotient: nat, residual: nat, w: int)
    requires Significand(b) && Significand(quotient) && 1 <= w <= 254 && vb > 0
    requires Target(Units(va), vb, n, b, w)
    requires n % IMPLICIT == 0 && residual == n - Times(quotient, b) && 0 < 2 * residual < 3 * b
    ensures FlushedQuotient(va, vb,
              w * IMPLICIT + (quotient - IMPLICIT) + (if 2 * residual > b then 1 else 0))
  {
    hide Times, Scale, Rounds;
    var c := if 2 * residual > b then quotient + 1 else quotient;
    ResidualTest(n, b, quotient, residual);
    TargetNormal(Units(va), vb, n, b, w);
    TimesMono(IMPLICIT, quotient, b);
    RoundInBinade(Units(va), vb, n, b, w, c - IMPLICIT);
    LargeTarget(Units(va), vb, n, b, w);
  }

  /** From exponent 1 upwards the quotient is at least the smallest normal number. */
  lemma LargeTarget(num: nat, den: nat, n: nat, b: nat, w: int)
    requires b > 0 && den > 0 && w >= 1 && Target(num, den, n, b, w)
    requires n >= Times(IMPLICIT, b)
    ensures num >= Times(Scale(IMPLICIT, w - 1), den) >= Times(IMPLICIT, den)
  {
    hide Times, Scale;
    TargetNormal(num, den, n, b, w);
    ScaleMono(Times(IMPLICIT, b), n, w - 1);
    ScaleMono(IMPLICIT, IMPLICIT, w - 1);
    TimesMono(Scale(Times(IMPLICIT, b), w - 1), Scale(n, w - 1), den);
    ScaleTimes(IMPLICIT, w - 1, b);
    Swap(Scale(IMPLICIT, w - 1), b, den);
    TimesOrder(Times(Scale(IMPLICIT, w - 1), den), num, b);
    TimesMono(IMPLICIT, Scale(IMPLICIT, w - 1), den);
  }

  lemma OverflowResult(va: nat, vb: nat, n: nat, b: nat, w: int)
    requires Significand(b) && vb > 0 && w >= 255
    requires Target(Units(va), vb, n, b, w) && n >= Times(IMPLICIT, b)
    ensures FlushedQuotient(va, vb, INFINITY)
  {
    hide Times, Scale, Value;
    LargeTarget(Units(va), vb, n, b, w);
    BinadeValue(254, IMPLICIT);
    ScaleNext(IMPLICIT, 253);
    ScaleAdd(IMPLICIT, 0, 253);
    ScaleScale(IMPLICIT, 254, w - 255);
    ScaleMono(Scale(IMPLICIT, 254), Scale(IMPLICIT, 254), w - 255);
    ScaleMono(0, IMPLICIT, 254);
    ScaleOne(254);
    TimesMono(Value(INFINITY), Scale(IMPLICIT, w - 1), vb);
    ScaledMono(INFINITY - 1, INFINITY, vb);
    TimesAdd(Value(INFINITY - 1), Value(INFINITY), vb);
  }

  /** Below exponent 1: only equal significands at exponent 0 give a normal number, 2^-126 itself. */
  lemma TinyResult(va: nat, vb: nat, a: nat, b: nat, k: nat, quotient: nat, residual: nat, w: int)
    requires Significand(a) && Significand(b) && vb > 0 && w <= 0 && (k == 23 || k == 24)
    requires Target(Units(va), vb, Shifted(a, k), b, w)
    requires QuotientOf(a, b, k, quotient, residual)
    ensures w == 0 && a == b && k == 24 ==> FlushedQuotient(va, vb, IMPLICIT)
    ensures w == 0 && a == b && k == 24 ==> 2 * residual > b && quotient == 2 * IMPLICIT - 1
    ensures !(w == 0 && a == b && k == 24) ==> FlushedQuotient(va, vb, 0)
    ensures w == 0 && !(a == b && k == 24) ==> quotient + (if 2 * residual > b then 1 else 0) < 2 * IMPLICIT
  {
    hide Times, Scale, Rounds;
    var num, n := Units(va), Shifted(a, k);
    TargetTiny(num, vb, n, b, w);
    TimesMono(quotient, 2 * IMPLICIT - 1, b);
    TimesIs(2 * IMPLICIT - 1, b);
    if quotient < 2 * IMPLICIT - 1 {
    } else {
      TimesIs(quotient, b);
    }
    // compare num with 2^-126 * den through num * b
    Swap(IMPLICIT, b, vb);
    TimesMono(n, 2 * IMPLICIT * b, vb);
    TimesIs(IMPLICIT, b);
    TimesDouble(IMPLICIT * b, vb);
    TimesOrder(Times(IMPLICIT, vb), num, b);
    TimesOrder(num, Times(IMPLICIT, vb), b);
    TimesNat(IMPLICIT * b, vb);
    if w == 0 && a == b && k == 24 {
      TimesOne(num);
      TimesOne(IMPLICIT);
      TimesOne(2 * IMPLICIT + 1);
      ScaleZero(IMPLICIT);
      RoundInBinade(num, vb, IMPLICIT, 1, 1, 0);
    }
  }

  // ----- Patterns -----

  const ABS_MASK: nat := 0x7fff_ffff
  const FRACTION_MASK: nat := 0x7f_ffff
  const QUIET_BIT: nat := 0x40_0000

  /** The fields of a pattern, as the masks and shifts of the source extract them. */
  lemma Fields(x: nat)
    requires x < 2 * SIGN_BIT
    ensures And(x, ABS_MASK) == x % SIGN_BIT
    ensures And(x, FRACTION_MASK) == x % IMPLICIT
    ensures Shr(x, 23) == x / IMPLICIT
    ensures And(x / IMPLICIT, 0xff) == x % SIGN_BIT / IMPLICIT
  {
    hide And, Scale, Shr, Low, Pow2, Times;
    Literals();
    AndMask(x, 31);
    AndMask(x, 23);
    AndMask(x / IMPLICIT, 8);
    LiteralSplit(x, 31);
    LiteralSplit(x, 23);
    LiteralSplit(x / IMPLICIT, 8);
  }

  lemma LiteralSplit(x: nat, k: nat)
    requires k == 8 || k == 23 || k == 31
    ensures Shr(x, k) == x / Pow2(k) && Low(x, k) == x % Pow2(k)
  {
    hide Scale, Shr, Low, Pow2, Times;
    Literals();
    ScaleIsTimes(x / Pow2(k), k);
    TimesIs(x / Pow2(k), Pow2(k));
    HighLowUnique(x, k, x / Pow2(k), x % Pow2(k));
  }

  /** The sign of a quotient. */
  ghost function SignOf(a: nat, b: nat): nat {
    if (a >= SIGN_BIT) != (b >= SIGN_BIT) then SIGN_BIT else 0
  }

  lemma QuotientSign(a: nat, b: nat)
    requires a < 2 * SIGN_BIT && b < 2 * SIGN_BIT
    ensures And(Xor(a, b), SIGN_BIT) == SignOf(a, b)
  {
    hide And, Xor, Pow2;
    Literals();
    XorTop(a, b, 31);
    AndTopBit(Xor(a, b), 31);
  }

  lemma OrSign(m: nat, sign: nat)
    requires m < SIGN_BIT && (sign == 0 || sign == SIGN_BIT)
    ensures Or(m, sign) == m + sign
  {
    hide Or, Low, Pow2;
    Literals();
    OrZero(m);
    LiteralSplit(sign, 31);
    OrDisjoint(sign, m, 31);
  }

  /** A NaN made quiet: its sign and the rest of its payload stay (section 6.2.3). */
  ghost predicate Quieted(nan: nat, bits: nat) {
    && bits % SIGN_BIT > INFINITY && bits / QUIET_BIT % 2 == 1
    && (bits == nan || bits == nan + QUIET_BIT)
  }

  lemma QuietNan(x: nat)
    requires x < 2 * SIGN_BIT && x % SIGN_BIT > INFINITY
    ensures Quieted(x, Or(x, QUIET_BIT))
  {
    hide Or, Shr, Pow2;
    Literals();
    assert Pow2(22) == QUIET_BIT by { Next(0, 22); }
    OrBit(x, 22);
    Bit22(x);
  }

  lemma Bit22(x: nat)
    ensures Shr(x, 22) == x / QUIET_BIT
  {
    hide Scale, Shr, Pow2, Times;
    Literals();
    assert Pow2(22) == QUIET_BIT by { Next(0, 22); }
    ScaleIsTimes(x / QUIET_BIT, 22);
    TimesIs(x / QUIET_BIT, QUIET_BIT);
    HighLowUnique(x, 22, x / QUIET_BIT, x % QUIET_BIT);
  }

  /** `normalize`: shifts the leading bit of a subnormal's fraction to the implicit position. */
  method Normalize(significand: nat) returns (shifted: nat, scale: int)
    requires 0 < significand < IMPLICIT
    ensures Unpacked(Value(significand), shifted, scale)
  {
    hide Scale, Shr, Low, Pow2, BitLen, Value;
    Literals();
    BitLenBounds(significand);
    BitLenFits(significand, 23);
    BitLenOfImplicit();
    var shift := Clz(significand, 32) - Clz(IMPLICIT, 32);
    ScaleMono(Pow2(BitLen(significand) - 1), significand, shift);
    ScaleMono(significand, Pow2(BitLen(significand)), shift);
    ScalePow2(BitLen(significand) - 1, shift);
    ScalePow2(BitLen(significand), shift);
    Pow2Mono(24, 32);
    LowSmall(Scale(significand, shift), 32);
    UnpackedSubnormal(significand, shift);
    shifted := Shl(significand, shift, 32);
    scale := 1 - shift;
  }

  lemma BitLenOfImplicit()
    ensures BitLen(IMPLICIT) == 24
  {
    Literals();
    BitLenBounds(IMPLICIT);
    if BitLen(IMPLICIT) < 24 { Pow2Mono(BitLen(IMPLICIT), 23); }
    if BitLen(IMPLICIT) > 24 { Pow2Mono(24, BitLen(IMPLICIT) - 1); }
  }

  ghost predicate Finite(m: nat) { 0 < m < INFINITY }

  /** The significand, with its leading bit, and the exponent of a nonzero finite magnitude. */
  method Unpack(x: nat) returns (significand: nat, exponent: int)
    requires x < 2 * SIGN_BIT && Finite(x % SIGN_BIT)
    ensures Unpacked(Value(x % SIGN_BIT), significand, exponent)
  {
    hide And, Or, Shr, Scale, Low, Pow2, Value;
    Fields(x);
    exponent := And(Shr(x, 23), 0xff);
    significand := And(x, FRACTION_MASK);
    var m := And(x, ABS_MASK);
    if m < IMPLICIT {
      var scale;
      significand, scale := Normalize(significand);
      exponent := exponent + scale;
    } else {
      UnpackedNormal(m);
    }
    SetImplicit(significand);
    significand := Or(significand, IMPLICIT);
  }

  lemma SetImplicit(x: nat)
    requires x < 2 * IMPLICIT
    ensures Or(x, IMPLICIT) == if x < IMPLICIT then x + IMPLICIT else x
  {
    hide Or, Shr, Pow2;
    Literals();
    OrBit(x, 23);
    Fields(x);
  }

  /** `x & ~significandMask` tells whether rounding carried out of the fraction. */
  lemma CarryOut(x: nat)
    requires x <= IMPLICIT
    ensures And(x, 0xff80_0000) != 0 <==> x == IMPLICIT
  {
    hide And, Low, Shr, Scale, Pow2;
    Literals();
    AndHighMask(x, 32, 23);
    ScaleOne(23);
    if x < IMPLICIT {
      LowSmall(x, 23);
    } else {
      HighLowUnique(x, 23, 1, 0);
    }
  }

  /** `x & significandMask` clears the implicit bit. */
  lemma ClearImplicit(x: nat)
    requires Significand(x)
    ensures And(x, FRACTION_MASK) == x - IMPLICIT
  {
    hide And;
    Fields(x);
  }

  /** The final part of the routine, from the written exponent and the residual. */
  method RoundAndPack(ghost va: nat, ghost vb: nat, ghost a: nat, b: nat, ghost k: nat,
                      quotient: nat, residual: nat, writtenExponent: int)
    returns (m: nat)
    requires Significand(a) && Significand(b) && (k == 23 || k == 24) && vb > 0
    requires Target(Units(va), vb, Shifted(a, k), b, writtenExponent)
    requires QuotientOf(a, b, k, quotient, residual)
    ensures m <= INFINITY && FlushedQuotient(va, vb, m)
  {
    hide Times, Scale, And, Or, Shl, FlushedQuotient, Target;
    ClearImplicit(quotient);
    ghost var n := Shifted(a, k);
    if writtenExponent >= 255 {
      ResidualTest(n, b, quotient, residual);
      TimesMono(IMPLICIT, quotient, b);
      OverflowResult(va, vb, n, b, writtenExponent);
      m := INFINITY;
    } else if writtenExponent < 1 {
      TinyResult(va, vb, a, b, k, quotient, residual, writtenExponent);
      if writtenExponent == 0 {
        var round := if U32(residual * 2) > b then 1 else 0;
        var absResult := And(quotient, FRACTION_MASK);
        absResult := absResult + round;
        CarryOut(absResult);
        if And(absResult, 0xff80_0000) != 0 {
          return absResult;
        }
      }
      m := 0;
    } else {
      var round := if U32(residual * 2) > b then 1 else 0;
      var absResult := And(quotient, FRACTION_MASK);
      Pack(writtenExponent, absResult);
      absResult := Or(absResult, Shl(writtenExponent, 23, 32));
      NormalResult(va, vb, n, b, quotient, residual, writtenExponent);
      m := absResult + round;
    }
  }

  /** Division of nonzero finite numbers: the magnitude of the result. */
  method DivideFinite(a: nat, b: nat) returns (m: nat)
    requires a < 2 * SIGN_BIT && b < 2 * SIGN_BIT
    requires Finite(a % SIGN_BIT) && Finite(b % SIGN_BIT)
    ensures m <= INFINITY
    ensures Value(a % SIGN_BIT) > 0 && Value(b % SIGN_BIT) > 0
    ensures FlushedQuotient(Value(a % SIGN_BIT), Value(b % SIGN_BIT), m)
  {
    hide Times, Scale, Value, FlushedQuotient, Target, QuotientOf;
    SmallValues();
    ghost var va, vb := Value(a % SIGN_BIT), Value(b % SIGN_BIT);
    ValueMono(0, a % SIGN_BIT);
    ValueMono(0, b % SIGN_BIT);
    var aSignificand, aExponent := Unpack(a);
    var bSignificand, bExponent := Unpack(b);
    var quotientExponent := aExponent - bExponent;
    var k, quotient, residual := DivideSignificands(aSignificand, bSignificand);
    TargetOf(va, aSignificand, aExponent, vb, bSignificand, bExponent, k);
    if k == 24 {
      quotientExponent := quotientExponent - 1;
    }
    m := RoundAndPack(va, vb, aSignificand, bSignificand, k, quotient, residual, quotientExponent + 127);
  }

  /** The quotient of two patterns, as section 6 and section 7.3 of IEEE 754-2008 define the
      exceptional operands, and rounded (with subnormal results flushed) otherwise. */
  ghost predicate IsQuotient(a: nat, b: nat, bits: nat) {
    var x, y, sign := a % SIGN_BIT, b % SIGN_BIT, SignOf(a, b);
    if x > INFINITY then Quieted(a, bits)
    else if y > INFINITY then Quieted(b, bits)
    else if (x == INFINITY && y == INFINITY) || (x == 0 && y == 0) then bits == INFINITY + QUIET_BIT
    else if x == INFINITY || y == 0 then bits == INFINITY + sign
    else if y == INFINITY || x == 0 then bits == sign
    else
      && sign <= bits <= INFINITY + sign
      && Value(x) > 0 && Value(y) > 0
      && FlushedQuotient(Value(x), Value(y), bits - sign)
  }

  method Divide(a: nat, b: nat) returns (bits: nat)
    requires a < 2 * SIGN_BIT && b < 2 * SIGN_BIT
    ensures IsQuotient(a, b, bits)
  {
    hide And, Or, Xor, Shr, Value, FlushedQuotient;
    Fields(a);
    Fields(b);
    QuotientSign(a, b);
    var aExponent, bExponent := And(Shr(a, 23), 0xff), And(Shr(b, 23), 0xff);
    var quotientSign := And(Xor(a, b), SIGN_BIT);
    OrSign(INFINITY, quotientSign);
    if aExponent == 0 || aExponent == 255 || bExponent == 0 || bExponent == 255 {
      var aAbs, bAbs := And(a, ABS_MASK), And(b, ABS_MASK);
      if aAbs > INFINITY {
        QuietNan(a);
        return Or(a, QUIET_BIT);
      }
      if bAbs > INFINITY {
        QuietNan(b);
        return Or(b, QUIET_BIT);
      }
      if aAbs == INFINITY {
        if bAbs == INFINITY {
          return 0x7fc0_0000;
        }
        return Or(aAbs, quotientSign);
      }
      if bAbs == INFINITY {
        return quotientSign;
      }
      if aAbs == 0 {
        if bAbs == 0 {
          return 0x7fc0_0000;
        }
        return quotientSign;
      }
      if bAbs == 0 {
        return Or(INFINITY, quotientSign);
      }
    }
    var m := DivideFinite(a, b);
    OrSign(m, quotientSign);
    bits := Or(m, quotientSign);
  }

  /** The least normal number divided by 2: every result that `Divide` may deliver is zero, and
      none is the rounded quotient. */
  lemma FlushExample(bits: nat)
    requires IsQuotient(0x0080_0000, 0x4000_0000, bits)
    ensures bits == 0 && !Rounds(Units(Value(0x0080_0000)), Value(0x4000_0000), bits)
  {
    hide Times, Rounds, Pow2, Scale;
    var va, vb := Value(0x0080_0000), Value(0x4000_0000);
    Literals();
    assert va == IMPLICIT by { ScaleZero(IMPLICIT); }
    assert vb == Scale(IMPLICIT, 127);
    ScalePow2(23, 149);
    ScalePow2(23, 127);
    ScalePow2(23, 150);
    ScaleIsTimes(IMPLICIT, 150);
    Next(0, 172);
    Pow2Mono(151, 173);
    Next(0, 150);
    hide Units;
    DeliveredIsRounded(va, vb, bits);
  }
}
