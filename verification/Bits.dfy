/** Machine words as integers. Shifts are iterated doubling and halving, truncation
    keeps the low bits (also of a negative number, as two's complement does), and
    `And`, `Or`, `Xor` work bit by bit; the lemmas say when such an operation is a
    sum, a difference or a remainder. */
module Bits {

  function Pow2(k: nat): (r: nat)
    ensures r >= 1
  {
    if k == 0 then 1 else 2 * Pow2(k - 1)
  }

  /** x * 2^k. */
  function Scale(x: int, k: nat): int {
    if k == 0 then x else 2 * Scale(x, k - 1)
  }

  /** `x >> k`: the floor of x / 2^k. */
  function Shr(x: int, k: nat): (r: int)
    ensures x >= 0 ==> 0 <= r <= x
    decreases k
  {
    if k == 0 then x else Shr(x / 2, k - 1)
  }

  /** The low `k` bits of `x`: x modulo 2^k, also for negative `x`. */
  function Low(x: int, k: nat): (r: nat)
    ensures r < Pow2(k)
    decreases k
  {
    if k == 0 then 0 else 2 * Low(x / 2, k - 1) + x % 2
  }

  /** `x << k` in a register of `w` bits. */
  function Shl(x: nat, k: nat, w: nat): nat { Low(Scale(x, k), w) }

  function And(a: nat, b: nat): nat {
    if a == 0 || b == 0 then 0
    else 2 * And(a / 2, b / 2) + (if a % 2 == 1 && b % 2 == 1 then 1 else 0)
  }

  function Or(a: nat, b: nat): nat
    decreases a + b
  {
    if a == 0 && b == 0 then 0
    else 2 * Or(a / 2, b / 2) + (if a % 2 == 1 || b % 2 == 1 then 1 else 0)
  }

  function Xor(a: nat, b: nat): nat
    decreases a + b
  {
    if a == 0 && b == 0 then 0
    else 2 * Xor(a / 2, b / 2) + (if a % 2 != b % 2 then 1 else 0)
  }

  /** `x >> (w - 1)` where `x` is read as a signed `w`-bit value: the sign bit in every position. */
  function SignFill(x: nat, w: nat): nat
    requires w >= 1
  {
    if x >= Pow2(w - 1) then Pow2(w) - 1 else 0
  }

  /** The position of the highest set bit plus one; 0 for 0. */
  function BitLen(x: nat): nat {
    if x == 0 then 0 else 1 + BitLen(x / 2)
  }

  /** Count of leading zeros of a nonzero `w`-bit value. */
  function Clz(x: nat, w: nat): int { w - BitLen(x) }

  /** Count of trailing zeros of a nonzero value. */
  function Ctz(x: nat): nat
    requires x != 0
  {
    if x % 2 == 1 then 0 else 1 + Ctz(x / 2)
  }

  lemma {:induction false} Pow2Mono(a: nat, b: nat)
    requires a <= b
    ensures Pow2(a) <= Pow2(b)
  {
    if a < b { Pow2Mono(a, b - 1); }
  }

  lemma {:induction false} ScaleOne(k: nat)
    ensures Scale(1, k) == Pow2(k) && Scale(0, k) == 0
  {
    if k > 0 { ScaleOne(k - 1); }
  }

  lemma {:induction false} ScaleAdd(x: int, y: int, k: nat)
    ensures Scale(x + y, k) == Scale(x, k) + Scale(y, k)
    ensures Scale(2 * x, k) == 2 * Scale(x, k)
  {
    if k > 0 { ScaleAdd(x, y, k - 1); }
  }

  lemma {:induction false} ScaleScale(x: int, j: nat, k: nat)
    ensures Scale(Scale(x, j), k) == Scale(x, j + k)
  {
    if k > 0 { ScaleScale(x, j, k - 1); }
  }

  lemma ScalePow2(j: nat, k: nat)
    ensures Scale(Pow2(j), k) == Pow2(j + k)
  {
    ScaleOne(j);
    ScaleOne(j + k);
    ScaleScale(1, j, k);
  }

  lemma {:induction false} ScaleMono(x: int, y: int, k: nat)
    requires x <= y
    ensures Scale(x, k) <= Scale(y, k)
    ensures x < y ==> Scale(x, k) + Pow2(k) <= Scale(y, k)
    ensures x >= 0 ==> Scale(x, k) >= x
  {
    if k > 0 { ScaleMono(x, y, k - 1); }
  }

  lemma Next(x: int, k: nat)
    ensures Scale(x, k + 1) == 2 * Scale(x, k) && Pow2(k + 1) == 2 * Pow2(k)
  {
  }

  lemma One(x: int)
    ensures Scale(x, 1) == 2 * x && Pow2(1) == 2 && Shr(x, 1) == x / 2 && Low(x, 1) == x % 2
  {
    assert Scale(x, 0) == x && Shr(x / 2, 0) == x / 2 && Low(x / 2, 0) == 0;
  }

  /** A number is its high part scaled up plus its low bits ... */
  lemma {:induction false} HighLow(x: int, k: nat)
    ensures x == Scale(Shr(x, k), k) + Low(x, k)
    decreases k
  {
    if k > 0 {
      HighLow(x / 2, k - 1);
    }
  }

  /** ... and that split is unique. */
  lemma {:induction false} HighLowUnique(x: int, k: nat, q: int, r: int)
    requires 0 <= r < Pow2(k) && x == Scale(q, k) + r
    ensures Shr(x, k) == q && Low(x, k) == r
    decreases k
  {
    if k > 0 {
      HighLowUnique(x / 2, k - 1, q, r / 2);
    }
  }

  lemma LowSmall(x: int, k: nat)
    requires 0 <= x < Pow2(k)
    ensures Low(x, k) == x && Shr(x, k) == 0
  {
    ScaleOne(k);
    HighLowUnique(x, k, 0, x);
  }

  /** A value of fewer than `w` bits has fewer than `w - k` bits after a shift by `k`. */
  lemma ShrBound(x: nat, k: nat, w: nat)
    requires k <= w && x < Pow2(w)
    ensures 0 <= Shr(x, k) < Pow2(w - k)
  {
    HighLow(x, k);
    ScalePow2(w - k, k);
    if Shr(x, k) >= Pow2(w - k) { ScaleMono(Pow2(w - k), Shr(x, k), k); }
  }

  /** `x << k` in `w` bits keeps the low `w - k` bits of `x`. */
  lemma ShlLow(x: nat, k: nat, w: nat)
    requires k <= w
    ensures Shl(x, k, w) == Scale(Low(x, w - k), k) < Pow2(w)
    ensures Low(Shl(x, k, w), k) == 0
  {
    var u, v := Shr(x, w - k), Low(x, w - k);
    HighLow(x, w - k);
    ScaleAdd(Scale(u, w - k), v, k);
    ScaleScale(u, w - k, k);
    ScaleMono(v, Pow2(w - k), k);
    ScaleMono(0, v, k);
    ScaleOne(k);
    ScalePow2(w - k, k);
    HighLowUnique(Scale(x, k), w, u, Scale(v, k));
    HighLowUnique(Scale(v, k), k, v, 0);
  }

  lemma {:induction false} BitLenBounds(x: nat)
    requires x > 0
    ensures BitLen(x) >= 1
    ensures Pow2(BitLen(x) - 1) <= x < Pow2(BitLen(x))
  {
    if x > 1 { BitLenBounds(x / 2); }
  }

  lemma {:induction false} BitLenFits(x: nat, w: nat)
    requires x < Pow2(w)
    ensures BitLen(x) <= w
  {
    if x > 0 {
      BitLenBounds(x);
      if BitLen(x) > w { Pow2Mono(w, BitLen(x) - 1); }
    }
  }

  /** A mask of `k` ones keeps the low `k` bits. */
  lemma {:induction false} AndMask(a: nat, k: nat)
    ensures And(a, Pow2(k) - 1) == Low(a, k)
  {
    if k > 0 && a > 0 {
      AndMask(a / 2, k - 1);
    } else if k > 0 {
      LowSmall(0, k);
    }
  }

  lemma AndZero(a: nat)
    ensures And(a, 0) == 0 && And(0, a) == 0
  {
  }

  lemma {:induction false} AndSelf(a: nat)
    ensures And(a, a) == a
  {
    if a > 0 { AndSelf(a / 2); }
  }

  lemma {:induction false} OrZero(a: nat)
    ensures Or(a, 0) == a && Or(0, a) == a
  {
    if a > 0 { OrZero(a / 2); }
  }

  /** Values without a common bit position: `|` is `+`. */
  lemma {:induction false} OrDisjoint(a: nat, b: nat, k: nat)
    requires b < Pow2(k) && Low(a, k) == 0
    ensures Or(a, b) == a + b && Or(b, a) == a + b
  {
    if k == 0 {
      OrZero(a);
    } else if a == 0 {
      OrZero(b);
    } else {
      OrDisjoint(a / 2, b / 2, k - 1);
    }
  }

  lemma {:induction false} XorZero(a: nat)
    ensures Xor(a, 0) == a && Xor(0, a) == a
  {
    if a > 0 { XorZero(a / 2); }
  }

  /** Flipping the top bit of a value that has it removes it. */
  lemma {:induction false} XorTopBit(a: nat, k: nat)
    requires Pow2(k) <= a < 2 * Pow2(k)
    ensures Xor(a, Pow2(k)) == a - Pow2(k)
  {
    var p := Pow2(k);
    if k == 0 {
      assert a == 1 && Xor(1, 1) == 2 * Xor(0, 0);
    } else {
      assert p == 2 * Pow2(k - 1) && p / 2 == Pow2(k - 1) && p % 2 == 0;
      XorTopBit(a / 2, k - 1);
      assert Xor(a, p) == 2 * Xor(a / 2, p / 2) + a % 2;
    }
  }

  /** The classic test: a nonzero `d` is a power of two exactly when `d & (d - 1)` is zero. */
  lemma {:induction false} PowerOfTwoTest(d: nat)
    requires d > 0
    ensures And(d, d - 1) == 0 <==> d == Pow2(Ctz(d))
  {
    if d % 2 == 1 {
      if d > 1 {
        assert (d - 1) / 2 == d / 2;
        AndSelf(d / 2);
      }
    } else {
      assert (d - 1) / 2 == d / 2 - 1;
      PowerOfTwoTest(d / 2);
    }
  }

  /** A mask of ones above position `k` clears the low `k` bits. */
  lemma {:induction false} AndHighMask(x: nat, w: nat, k: nat)
    requires k <= w && x < Pow2(w)
    ensures Pow2(w) >= Pow2(k) && And(x, Pow2(w) - Pow2(k)) == x - Low(x, k)
  {
    Pow2Mono(k, w);
    if k == 0 {
      AndMask(x, w);
      LowSmall(x, w);
    } else {
      AndHighMask(x / 2, w - 1, k - 1);
      var mask := Pow2(w) - Pow2(k);
      assert mask / 2 == Pow2(w - 1) - Pow2(k - 1) && mask % 2 == 0;
      if x == 0 { LowSmall(0, k); }
    }
  }

  /** Setting bit `k`. */
  lemma {:induction false} OrBit(x: nat, k: nat)
    ensures Or(x, Pow2(k)) == if Shr(x, k) % 2 == 1 then x else x + Pow2(k)
  {
    if k == 0 {
      OrZero(x / 2);
    } else {
      OrBit(x / 2, k - 1);
    }
  }

  /** Testing the top bit of a value of `k + 1` bits. */
  lemma {:induction false} AndTopBit(x: nat, k: nat)
    requires x < 2 * Pow2(k)
    ensures And(x, Pow2(k)) == if x >= Pow2(k) then Pow2(k) else 0
  {
    if k > 0 { AndTopBit(x / 2, k - 1); }
  }

  /** The top bit of an exclusive or. */
  lemma {:induction false} XorTop(a: nat, b: nat, k: nat)
    requires a < 2 * Pow2(k) && b < 2 * Pow2(k)
    ensures Xor(a, b) < 2 * Pow2(k)
    ensures Xor(a, b) >= Pow2(k) <==> (a >= Pow2(k)) != (b >= Pow2(k))
  {
    if k == 0 {
      assert Xor(a / 2, b / 2) == 0;
    } else {
      XorTop(a / 2, b / 2, k - 1);
    }
  }
}
