/** The binary32 format and its rounding, section 3.4 and section 4.3.1 of IEEE 754-2008,
    on sign-free bit patterns. Every finite magnitude is a multiple of 2^-149, so `Value`
    is the magnitude counted in those units. */
module Binary32 {
  import opened Bits
  import opened Products

  const IMPLICIT: nat := 0x80_0000
  const INFINITY: nat := 0x7f80_0000
  const SIGN_BIT: nat := 0x8000_0000

  lemma Literals()
    ensures Pow2(8) == 256 && Pow2(23) == IMPLICIT && Pow2(24) == 2 * IMPLICIT && Pow2(26) == 8 * IMPLICIT
    ensures Pow2(31) == SIGN_BIT && Pow2(32) == 2 * SIGN_BIT
  {
    assert Pow2(8) == 0x100;
    ScalePow2(8, 8);
    assert Scale(0x100, 8) == 0x1_0000;
    assert Pow2(23) == 0x80 * Pow2(16);
    assert Pow2(26) == 8 * Pow2(23);
    assert Pow2(31) == 0x20 * Pow2(26);
  }

  /** The magnitude of a pattern, in units of 2^-149. The pattern of infinity gets
      2^128, the value rounding treats it as. */
  ghost function Value(m: nat): (v: int)
    requires m <= INFINITY
  {
    var e, f := m / IMPLICIT, m % IMPLICIT;
    if e == 0 then f else Scale(IMPLICIT + f, e - 1)
  }

  /** The integer `a` counted in units of 2^-149. */
  ghost function Units(a: nat): nat {
    ScaleMono(0, a, 149);
    ScaleOne(149);
    Scale(a, 149)
  }

  ghost function Distance(m: nat, num: int, den: nat): int
    requires m <= INFINITY
  {
    var d := Times(Value(m), den) - num;
    if d < 0 then -d else d
  }

  /** Of all finite patterns, `m` is nearest to num/den; in a tie `m` is even. */
  ghost predicate NearestEven(num: nat, den: nat, m: nat) {
    && m < INFINITY
    && forall y: nat | y < INFINITY && y != m ::
         && Distance(m, num, den) <= Distance(y, num, den)
         && (Distance(m, num, den) == Distance(y, num, den) ==> m % 2 == 0)
  }

  /** roundTiesToEven of num/den (in units of 2^-149): infinity from 2^128 - 2^103 upwards. */
  ghost predicate Rounds(num: nat, den: nat, m: nat) {
    if 2 * num >= Times(Value(INFINITY - 1) + Value(INFINITY), den) then m == INFINITY
    else NearestEven(num, den, m)
  }

  /** A binade, with the power of two that closes it. */
  lemma BinadeValue(e: nat, j: nat)
    requires 1 <= e <= 254 && j <= IMPLICIT
    ensures e * IMPLICIT + j <= INFINITY
    ensures Value(e * IMPLICIT + j) == Scale(IMPLICIT + j, e - 1)
  {
    hide Scale;
    var m := e * IMPLICIT + j;
    if j == IMPLICIT {
      assert m / IMPLICIT == e + 1 && m % IMPLICIT == 0;
      ScaleNext(IMPLICIT, e - 1);
      ScaleAdd(IMPLICIT, 0, e - 1);
    } else {
      assert m / IMPLICIT == e && m % IMPLICIT == j;
    }
  }

  lemma ScaleNext(x: int, k: nat)
    ensures Scale(x, k + 1) == 2 * Scale(x, k)
  {
  }

  lemma ValueStep(m: nat)
    requires m < INFINITY
    ensures Value(m) < Value(m + 1)
  {
    hide Scale;
    var e, f := m / IMPLICIT, m % IMPLICIT;
    if e == 0 {
      if m + 1 == IMPLICIT { ScaleZero(IMPLICIT); }
    } else {
      BinadeValue(e, f);
      BinadeValue(e, f + 1);
      ScaleMono(IMPLICIT + f, IMPLICIT + f + 1, e - 1);
    }
  }

  lemma ScaleZero(x: int)
    ensures Scale(x, 0) == x
  {
  }

  lemma {:induction false} ValueMono(x: nat, y: nat)
    requires x < y <= INFINITY
    ensures Value(x) < Value(y)
    decreases y
  {
    hide Value;
    ValueStep(y - 1);
    if x < y - 1 { ValueMono(x, y - 1); }
  }

  lemma ScaledMono(x: nat, y: nat, den: nat)
    requires x <= y <= INFINITY && den > 0
    ensures Times(Value(x), den) <= Times(Value(y), den)
    ensures x < y ==> Times(Value(x), den) < Times(Value(y), den)
  {
    hide Value, Times;
    if x < y {
      ValueMono(x, y);
      TimesMono(Value(x), Value(y), den);
    }
  }

  /** It is enough to compare the target with the midpoints to the two neighbours. */
  ghost predicate BetweenMidpoints(num: nat, den: nat, m: nat)
    requires m <= INFINITY
  {
    && (m < INFINITY ==> Below(num, den, m))
    && (m > 0 ==> Above(num, den, m))
  }

  ghost predicate Below(num: nat, den: nat, m: nat)
    requires m < INFINITY
  {
    var mid := Times(Value(m), den) + Times(Value(m + 1), den);
    2 * num <= mid && (2 * num == mid ==> m % 2 == 0)
  }

  ghost predicate Above(num: nat, den: nat, m: nat)
    requires 0 < m <= INFINITY
  {
    var mid := Times(Value(m - 1), den) + Times(Value(m), den);
    mid <= 2 * num && (2 * num == mid ==> m % 2 == 0)
  }

  lemma MidpointsRound(num: nat, den: nat, m: nat)
    requires m <= INFINITY && den > 0
    requires BetweenMidpoints(num, den, m)
    ensures Rounds(num, den, m)
  {
    hide Value, Times;
    TimesAdd(Value(INFINITY - 1), Value(INFINITY), den);
    if m < INFINITY {
      ScaledMono(m, INFINITY - 1, den);
      ScaledMono(m + 1, INFINITY, den);
      forall y: nat | y < INFINITY && y != m
        ensures Distance(m, num, den) <= Distance(y, num, den)
        ensures Distance(m, num, den) == Distance(y, num, den) ==> m % 2 == 0
      {
        if y < m {
          ScaledMono(y, m - 1, den);
          ScaledMono(m - 1, m, den);
        } else {
          ScaledMono(m + 1, y, den);
          ScaledMono(m, m + 1, den);
        }
      }
    }
  }

  /** Rounding has one result. */
  lemma RoundsUnique(num: nat, den: nat, m: nat, m': nat)
    requires den > 0 && Rounds(num, den, m) && Rounds(num, den, m')
    ensures m == m'
  {
    hide Value, Times;
    if m != m' {
      var lo, hi := if m < m' then m else m', if m < m' then m' else m;
      ScaledMono(lo, lo + 1, den);
      ScaledMono(lo + 1, hi, den);
      ScaledMono(hi - 1, hi, den);
      assert Distance(lo, num, den) == Distance(hi, num, den);
      var between := Distance(lo + 1, num, den);
    }
  }

  /** The target num/den is (n/b) * u: comparing 2n with k*b is comparing 2num with k*u*den. */
  lemma Transfer(num: nat, den: nat, n: nat, b: nat, u: nat, k: int)
    requires den > 0 && b > 0 && u > 0
    requires Times(num, b) == Times(Times(n, u), den)
    ensures 2 * n <= Times(k, b) <==> 2 * num <= Times(Times(k, u), den)
    ensures 2 * n == Times(k, b) <==> 2 * num == Times(Times(k, u), den)
  {
    hide Times;
    var w := Times(u, den);
    TimesNat(u, den);
    TimesOrder(2 * n, Times(k, b), w);
    TimesOrder(2 * num, Times(Times(k, u), den), b);
    TransferProducts(num, den, n, b, u, k);
  }

  lemma TransferProducts(num: nat, den: nat, n: nat, b: nat, u: nat, k: int)
    requires Times(num, b) == Times(Times(n, u), den)
    ensures Times(2 * n, Times(u, den)) == Times(2 * num, b)
    ensures Times(Times(k, b), Times(u, den)) == Times(Times(Times(k, u), den), b)
  {
    assert 2 * n * (u * den) == 2 * (n * u * den);
    assert 2 * num * b == 2 * (num * b);
    assert k * b * (u * den) == k * u * den * b;
  }

  /** Rounding the significand n/b to the integer IMPLICIT + j rounds (n/b) * 2^(e-1). */
  lemma RoundInBinade(num: nat, den: nat, n: nat, b: nat, e: nat, j: nat)
    requires den > 0 && b > 0 && 1 <= e <= 254 && j <= IMPLICIT
    requires Times(num, b) == Times(Scale(n, e - 1), den)
    requires 2 * n <= Times(2 * (IMPLICIT + j) + 1, b)
    requires 2 * n == Times(2 * (IMPLICIT + j) + 1, b) ==> j % 2 == 0
    requires j > 0 ==> 2 * n >= Times(2 * (IMPLICIT + j) - 1, b)
    requires j > 0 && 2 * n == Times(2 * (IMPLICIT + j) - 1, b) ==> j % 2 == 0
    requires j == 0 ==> n >= Times(IMPLICIT, b)
    ensures e * IMPLICIT + j <= INFINITY
    ensures Rounds(num, den, e * IMPLICIT + j)
  {
    hide Times, Scale, Pow2, Value;
    var m, c, u := e * IMPLICIT + j, IMPLICIT + j, Pow2(e - 1);
    BinadeValue(e, j);
    ScaleIsTimes(n, e - 1);
    ScaleIsTimes(c, e - 1);
    TimesAdd(c, c, u);
    if m < INFINITY {
      NextValue(e, j);
      TimesAdd(Value(m), Value(m + 1), den);
      Transfer(num, den, n, b, u, 2 * c + 1);
      TimesAdd(2 * c, 1, u);
      TimesOne(u);
      TimesOrder(Times(2 * c + 1, u), Value(m) + Value(m + 1), den);
      assert Below(num, den, m);
    }
    ScaledMono(m - 1, m, den);
    if j > 0 {
      BinadeValue(e, j - 1);
      ScaleIsTimes(c - 1, e - 1);
      TimesAdd(c - 1, c, u);
      TimesAdd(Value(m - 1), Value(m), den);
      Transfer(num, den, n, b, u, 2 * c - 1);
    } else {
      Transfer(num, den, n, b, u, 2 * c);
      TimesAdd(c, c, b);
      TimesAdd(Times(c, u), Times(c, u), den);
    }
    assert Above(num, den, m);
    MidpointsRound(num, den, m);
  }

  /** The neighbour above is at least one unit of the binade away. */
  lemma NextValue(e: nat, j: nat)
    requires 1 <= e <= 254 && j <= IMPLICIT && e * IMPLICIT + j < INFINITY
    ensures Value(e * IMPLICIT + j + 1) >= Scale(IMPLICIT + j, e - 1) + Pow2(e - 1)
  {
    hide Scale, Pow2, Value;
    if j < IMPLICIT {
      BinadeValue(e, j + 1);
      ScaleMono(IMPLICIT + j, IMPLICIT + j + 1, e - 1);
    } else {
      BinadeValue(e + 1, 1);
      ScaleNext(IMPLICIT + 1, e - 1);
      ScaleAdd(IMPLICIT + 1, 0, e - 1);
      ScaleMono(2 * IMPLICIT, 2 * IMPLICIT + 2, e - 1);
    }
  }

  /** Exponent and fraction fields are joined without touching each other. */
  lemma Pack(e: nat, f: nat)
    requires e < 512 && f < IMPLICIT
    ensures Or(Shl(e, 23, 32), f) == e * IMPLICIT + f
    ensures Or(f, Shl(e, 23, 32)) == e * IMPLICIT + f
  {
    hide Or, Scale, Low, Shl, Times, Pow2;
    Literals();
    ScaleIsTimes(e, 23);
    TimesIs(e, IMPLICIT);
    ShlLow(e, 23, 32);
    assert Pow2(9) == 512 by { Next(0, 8); }
    LowSmall(e, 9);
    OrDisjoint(Shl(e, 23, 32), f, 23);
  }
}
