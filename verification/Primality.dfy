/** Primes: trial division up to the square root, and a certificate that proves a large
    number prime from the order of one of its residues. */
module Primality {
  import opened Products

  ghost predicate Divides(d: int, n: int) { exists k :: n == Times(k, d) }

  ghost predicate IsPrime(n: int) {
    2 <= n && forall d | 2 <= d < n :: !Divides(d, n)
  }

  lemma DividesBy(d: int, n: int, k: int)
    requires n == Times(k, d)
    ensures Divides(d, n)
  {
  }

  lemma DividesSum(d: int, x: int, y: int)
    requires Divides(d, x) && Divides(d, y)
    ensures Divides(d, x + y) && Divides(d, x - y)
  {
    hide Times;
    var j :| x == Times(j, d);
    var k :| y == Times(k, d);
    TimesAdd(j, k, d);
    TimesSub(j, k, d);
  }

  lemma DividesMultiple(d: int, x: int, m: int)
    requires Divides(d, x)
    ensures Divides(d, Times(m, x)) && Divides(d, Times(x, m))
  {
    hide Times;
    var k :| x == Times(k, d);
    TimesAssoc(m, k, d);
    TimesComm(m, x);
  }

  lemma DividesTrans(d: int, m: int, n: int)
    requires Divides(d, m) && Divides(m, n)
    ensures Divides(d, n)
  {
    hide Times;
    var k :| n == Times(k, m);
    DividesMultiple(d, m, k);
  }

  lemma DividesSmaller(d: nat, n: nat)
    requires Divides(d, n) && n > 0
    ensures 0 < d <= n
  {
    hide Times;
    var k :| n == Times(k, d);
    TimesZero(k);
    if k <= 0 {
      TimesMono(k, 0, d);
      TimesZero(d);
    } else {
      TimesNat(k, d);
    }
  }

  /** Divisibility is a zero remainder. */
  lemma DividesMod(d: nat, n: int)
    requires d > 0
    ensures Divides(d, n) <==> n % d == 0
    ensures Divides(d, n - n % d)
  {
    hide Times;
    var q, r := n / d, n % d;
    Euclid(n, d);
    if Divides(d, n) {
      var k :| n == Times(k, d);
      if k < q { TimesMono(k + 1, q, d); TimesAdd(k, 1, d); TimesOne(d); }
      if k > q { TimesMono(q + 1, k, d); TimesAdd(q, 1, d); TimesOne(d); }
    }
  }

  lemma Euclid(n: int, d: nat)
    requires d > 0
    ensures n == Times(n / d, d) + n % d && 0 <= n % d < d
  {
    TimesComm(n / d, d);
  }

  lemma SmallestDivisor(n: int, d: int) returns (p: int)
    requires 2 <= d < n && Divides(d, n)
    ensures IsPrime(p) && p <= d && Divides(p, n)
    decreases d
  {
    hide Times;
    if !IsPrime(d) {
      var m :| 2 <= m < d && Divides(m, d);
      DividesTrans(m, d, n);
      p := SmallestDivisor(n, m);
    } else {
      p := d;
    }
  }

  /** Every composite has a prime factor up to its square root. */
  lemma FactorBelowRoot(n: int) returns (p: int)
    requires n >= 2 && !IsPrime(n)
    ensures IsPrime(p) && p < n && Divides(p, n) && Times(p, p) <= n
  {
    hide Times, Divides;
    var d :| 2 <= d < n && Divides(d, n);
    var k := Cofactor(d, n);
    TimesComm(k, d);
    if d <= k {
      p := SmallestDivisor(n, d);
      TimesMono(p, d, p);
      TimesMono(p, k, d);
      TimesMono(d, k, d);
    } else {
      DividesBy(k, n, d);
      p := SmallestDivisor(n, k);
      TimesMono(p, k, p);
      TimesMono(p, k, k);
      TimesMono(k, d, k);
    }
  }

  lemma Cofactor(d: int, n: int) returns (k: int)
    requires 2 <= d < n && Divides(d, n)
    ensures n == Times(k, d) && 2 <= k < n
  {
    hide Times;
    k :| n == Times(k, d);
    if k <= 1 {
      TimesMono(k, 1, d);
      TimesOne(d);
    } else {
      TimesMono(2, d, k);
      TimesComm(k, d);
      TimesIs(2, k);
    }
  }

  /** Trial division: nothing below i divides n, and n < i*i. */
  ghost predicate NoDivisorBelow(n: int, i: int) { forall d | 2 <= d < i :: !Divides(d, n) }

  lemma TrialDivision(n: int, i: nat)
    requires n >= 2 && NoDivisorBelow(n, i) && n < Times(i, i)
    ensures IsPrime(n)
  {
    hide Times, Divides;
    if !IsPrime(n) {
      var p := FactorBelowRoot(n);
      if p >= i {
        TimesMono(i, p, i);
        TimesMono(i, p, p);
        TimesComm(i, p);
      }
    }
  }

  // ----- Powers -----

  ghost function Power(b: int, e: nat): int {
    if e == 0 then 1 else Times(b, Power(b, e - 1))
  }

  lemma {:induction false} PowerAdd(b: int, i: nat, j: nat)
    ensures Power(b, i + j) == Times(Power(b, i), Power(b, j))
  {
    hide Times;
    if i == 0 {
      TimesOne(Power(b, j));
    } else {
      PowerAdd(b, i - 1, j);
      TimesAssoc(b, Power(b, i - 1), Power(b, j));
    }
  }

  /** b^e is congruent to x modulo n. */
  ghost predicate PowerIs(b: int, e: nat, x: int, n: int) { Divides(n, Power(b, e) - x) }

  lemma CongruentProduct(n: int, x: int, x': int, y: int, y': int)
    requires Divides(n, x - x') && Divides(n, y - y')
    ensures Divides(n, Times(x, y) - Times(x', y'))
  {
    hide Times, Divides;
    DividesMultiple(n, x - x', y);
    DividesMultiple(n, y - y', x');
    TimesSub(x, x', y);
    TimesSub(y, y', x');
    DividesSum(n, Times(x - x', y), Times(x', y - y'));
  }

  lemma PowerMul(b: int, i: nat, x: int, j: nat, y: int, n: int)
    requires PowerIs(b, i, x, n) && PowerIs(b, j, y, n)
    ensures PowerIs(b, i + j, Times(x, y), n)
  {
    hide Times, Divides, Power;
    PowerAdd(b, i, j);
    CongruentProduct(n, Power(b, i), x, Power(b, j), y);
  }

  lemma {:induction false} PowerOfOne(b: int, i: nat, k: nat, n: int)
    requires PowerIs(b, i, 1, n)
    ensures k == 0 ==> PowerIs(b, 0, 1, n)
    ensures Times(k, i) >= 0 && PowerIs(b, Times(k, i), 1, n)
  {
    hide Times, Divides;
    TimesNat(k, i);
    if k == 0 {
      TimesZero(i);
      TimesZero(n);
      DividesBy(n, 0, 0);
    } else {
      PowerOfOne(b, i, k - 1, n);
      TimesAdd(k - 1, 1, i);
      TimesOne(i);
      PowerMul(b, i, 1, Times(k - 1, i), 1, n);
      TimesOne(1);
    }
  }

  /** If b^d and b^f are one, so is b to the difference of a multiple. */
  lemma PowerCancel(b: int, d: nat, f: nat, n: int)
    requires PowerIs(b, d, 1, n) && PowerIs(b, d + f, 1, n)
    ensures PowerIs(b, f, 1, n)
  {
    hide Times, Divides, Power;
    PowerAdd(b, d, f);
    var x, y := Power(b, d), Power(b, f);
    DividesMultiple(n, x - 1, y);
    TimesSub(x, 1, y);
    TimesOne(y);
    DividesSum(n, Times(x, y) - 1, Times(x - 1, y));
  }

  /** e is f without one of its prime factors. */
  ghost predicate DropsPrime(q: int, e: nat, f: nat) { IsPrime(q) && f == Times(q, e) }

  /** No f with a prime factor dropped gives one. */
  ghost predicate NoSmallerOrder(b: int, f: nat, p: int) {
    forall q, e: nat | DropsPrime(q, e, f) :: !PowerIs(b, e, 1, p)
  }

  lemma OrderContradiction(b: int, f: nat, p: int, q: int, e: nat)
    requires NoSmallerOrder(b, f, p) && DropsPrime(q, e, f)
    ensures !PowerIs(b, e, 1, p)
  {
  }

  /** Then no smaller exponent at all gives one. */
  lemma {:induction false} OrderIs(b: int, f: nat, p: int, d: nat)
    requires p >= 2 && PowerIs(b, f, 1, p) && NoSmallerOrder(b, f, p)
    requires 0 < d < f
    ensures !PowerIs(b, d, 1, p)
    decreases d
  {
    hide Times, Divides, Power, IsPrime;
    if PowerIs(b, d, 1, p) {
      var k, r := f / d, f % d;
      Euclid(f, d);
      if k <= 0 { TimesMono(k, 0, d); TimesZero(d); }
      PowerOfOne(b, d, k, p);
      PowerCancel(b, Times(k, d), r, p);
      if r > 0 {
        OrderIs(b, f, p, r);
      } else {
        if k == 1 { TimesOne(d); }
        var q, m := PrimeFactor(k);
        TimesAssoc(q, m, d);
        TimesNat(m, d);
        PowerOfOne(b, d, m, p);
        OrderContradiction(b, f, p, q, Times(m, d));
      }
    }
  }

  lemma PrimeFactor(k: int) returns (q: int, m: nat)
    requires k >= 2
    ensures IsPrime(q) && k == Times(q, m)
  {
    hide Times;
    if IsPrime(k) {
      q, m := k, 1;
      TimesOne(k);
    } else {
      var d :| 2 <= d < k && Divides(d, k);
      q := SmallestDivisor(k, d);
      m := Cofactor(q, k);
      TimesComm(q, m);
    }
  }

  /** Powers below the order are different residues, none of them zero. */
  lemma DistinctPowers(b: int, f: nat, p: nat, i: nat, j: nat)
    requires p >= 2 && PowerIs(b, f, 1, p) && NoSmallerOrder(b, f, p)
    requires i < j < f
    ensures Power(b, i) % p != Power(b, j) % p
  {
    hide Times, Divides, Power, IsPrime;
    var x, y := Power(b, i), Power(b, j);
    if x % p == y % p {
      DividesMod(p, x);
      DividesMod(p, y);
      DividesSum(p, y - y % p, x - x % p);
      // multiply both by b^(f - i)
      PowerAdd(b, f - i, i);
      PowerAdd(b, f - i, j);
      var z := Power(b, f - i);
      DividesMultiple(p, y - x, z);
      TimesSub(y, x, z);
      DividesSum(p, Power(b, f) - 1, Times(z, y - x));
      assert PowerIs(b, f + (j - i), 1, p);
      PowerCancel(b, f, j - i, p);
      OrderIs(b, f, p, j - i);
    }
  }

  lemma PowerNonzero(b: int, f: nat, p: nat, i: nat)
    requires p >= 2 && PowerIs(b, f, 1, p) && i <= f
    ensures Power(b, i) % p != 0
  {
    hide Times, Divides, Power;
    DividesMod(p, Power(b, i));
    if Power(b, i) % p == 0 {
      PowerAdd(b, f - i, i);
      DividesMultiple(p, Power(b, i), Power(b, f - i));
      DividesSum(p, Power(b, f), Power(b, f) - 1);
      DividesSmaller(p, 1);
    }
  }

  /** The residues of b^0 .. b^(k-1). */
  ghost function Residues(b: int, p: nat, k: nat): set<int>
    requires p > 0
  {
    set i | 0 <= i < k :: Power(b, i) % p
  }

  lemma {:induction false} ResiduesCount(b: int, f: nat, p: nat, k: nat)
    requires p >= 2 && PowerIs(b, f, 1, p) && NoSmallerOrder(b, f, p) && k <= f
    ensures |Residues(b, p, k)| == k
  {
    hide Times, Divides, Power, IsPrime;
    if k > 0 {
      ResiduesCount(b, f, p, k - 1);
      var x := Power(b, k - 1) % p;
      assert Residues(b, p, k) == Residues(b, p, k - 1) + {x};
      if x in Residues(b, p, k - 1) {
        var i :| 0 <= i < k - 1 && Power(b, i) % p == x;
        DistinctPowers(b, f, p, i, k - 1);
      }
    }
  }

  /** A set of numbers from 1 to m has at most m elements. */
  lemma {:induction false} Pigeonhole(s: set<int>, m: nat)
    requires forall x :: x in s ==> 1 <= x <= m
    ensures |s| <= m
  {
    if m == 0 {
      assert forall x :: x !in s;
      assert s == {};
    } else {
      Pigeonhole(s - {m}, m - 1);
    }
  }

  lemma OrderBelow(b: int, f: nat, p: nat)
    requires p >= 2 && PowerIs(b, f, 1, p) && NoSmallerOrder(b, f, p)
    ensures f < p
  {
    hide Times, Divides, Power, IsPrime;
    ResiduesCount(b, f, p, f);
    forall x | x in Residues(b, p, f)
      ensures 1 <= x <= p - 1
    {
      var i :| 0 <= i < f && Power(b, i) % p == x;
      PowerNonzero(b, f, p, i);
      Euclid(Power(b, i), p);
    }
    Pigeonhole(Residues(b, p, f), p - 1);
  }

  /** A certificate of primality in the manner of Pocklington: b^f is one modulo n, for no
      prime q dividing f can b^(f/q) - 1 share a factor with n, and f is at least sqrt(n). */
  ghost predicate Certified(n: nat, f: nat, b: int) {
    && n >= 2
    && PowerIs(b, f, 1, n)
    && n <= Times(f, f)
    && forall q, e: nat | DropsPrime(q, e, f) :: UnitPower(b, e, n)
  }

  ghost predicate Inverse(u: int, x: int, n: int) { Divides(n, Times(u, x) - 1) }

  /** b^e - 1 is invertible modulo n. */
  ghost predicate UnitPower(b: int, e: nat, n: int) { HasInverse(Power(b, e) - 1, n) }

  ghost predicate HasInverse(x: int, n: int) { exists u :: Inverse(u, x, n) }

  lemma CertifiedIsPrime(n: nat, f: nat, b: int)
    requires Certified(n, f, b)
    ensures IsPrime(n)
  {
    hide Times, Divides, Power, IsPrime;
    if !IsPrime(n) {
      var p := FactorBelowRoot(n);
      PrimeAtLeastTwo(p);
      DividesTrans(p, n, Power(b, f) - 1);
      forall q, e: nat | DropsPrime(q, e, f)
        ensures !PowerIs(b, e, 1, p)
      {
        UnitModuloFactor(b, e, n, p);
      }
      OrderBelow(b, f, p);
      TimesMono(f, p, f);
      TimesMono(f, p, p);
      TimesComm(f, p);
    }
  }

  lemma PrimeAtLeastTwo(p: int)
    requires IsPrime(p)
    ensures p >= 2
  {
  }

  lemma UnitModuloFactor(b: int, e: nat, n: int, p: nat)
    requires UnitPower(b, e, n) && Divides(p, n) && p >= 2
    ensures !PowerIs(b, e, 1, p)
  {
    hide Times, Divides, Power;
    var u :| Inverse(u, Power(b, e) - 1, n);
    DividesTrans(p, n, Times(u, Power(b, e) - 1) - 1);
    if PowerIs(b, e, 1, p) {
      DividesMultiple(p, Power(b, e) - 1, u);
      DividesSum(p, Times(u, Power(b, e) - 1), Times(u, Power(b, e) - 1) - 1);
      DividesSmaller(p, 1);
    }
  }

  // ----- Checking certificates -----

  lemma PowerOne(b: int, n: int)
    ensures PowerIs(b, 1, b, n)
  {
    hide Times, Divides;
    assert Power(b, 0) == 1;
    TimesOne(b);
    TimesZero(n);
    DividesBy(n, 0, 0);
  }

  /** A prime that divides a product divides a factor. */
  lemma {:induction false} EuclidsLemma(q: nat, x: nat, y: int)
    requires IsPrime(q) && Divides(q, Times(x, y)) && !Divides(q, x)
    ensures Divides(q, y)
    decreases x
  {
    hide Times, Divides;
    if x >= q {
      // reduce x modulo q
      DividesMod(q, x);
      DividesMultiple(q, x - x % q, y);
      TimesSub(x, x - x % q, y);
      DividesSum(q, Times(x, y), Times(x - x % q, y));
      if Divides(q, x % q) { DividesSum(q, x % q, x - x % q); }
      EuclidsLemma(q, x % q, y);
    } else if x == 0 {
      TimesZero(q);
      DividesBy(q, 0, 0);
    } else if x == 1 {
      TimesOne(y);
    } else {
      // replace x by q % x, which is smaller and not zero
      var k, r := q / x, q % x;
      DividesMod(x, q);
      Euclid(q, x);
      assert 2 <= x < q;
      TimesAssoc(k, x, y);
      DividesMultiple(q, Times(x, y), k);
      TimesAdd(Times(k, x), r, y);
      DividesOfItself(q, y);
      DividesSum(q, Times(q, y), Times(k, Times(x, y)));
      if Divides(q, r) { DividesSmaller(q, r); }
      EuclidsLemma(q, r, y);
    }
  }

  lemma DividesOfItself(q: int, y: int)
    ensures Divides(q, Times(q, y))
  {
    TimesComm(q, y);
  }

  lemma PrimeDividesPrime(q: int, p: int)
    requires IsPrime(q) && IsPrime(p) && Divides(q, p)
    ensures q == p
  {
    hide Times, Divides;
    DividesSmaller(q, p);
  }

  /** The prime factors of a product of two primes. */
  lemma FactorsOfProduct(q1: nat, q2: nat, q: int, e: nat)
    requires IsPrime(q1) && IsPrime(q2) && DropsPrime(q, e, Times(q1, q2))
    ensures (q == q1 && e == q2) || (q == q2 && e == q1)
  {
    hide Times, Divides, IsPrime;
    DividesOfItself(q, e);
    PrimeAtLeastTwo(q);
    PrimeAtLeastTwo(q1);
    TimesComm(q, e);
    TimesComm(q1, q2);
    if Divides(q, q1) {
      PrimeDividesPrime(q, q1);
      TimesOrder(e, q2, q);
    } else {
      EuclidsLemma(q, q1, q2);
      PrimeDividesPrime(q, q2);
      TimesOrder(e, q1, q);
    }
  }

  /** Steps of square-and-multiply, each checked by its quotient k. */
  lemma Square(b: int, e: nat, x: nat, k: nat, y: nat, n: nat)
    requires PowerIs(b, e, x, n) && x * x == k * n + y
    ensures PowerIs(b, 2 * e, y, n)
  {
    hide Times, Divides, Power;
    PowerMul(b, e, x, e, x, n);
    Reduce(b, e + e, x, x, k, y, n);
  }

  lemma MultiplyBase(b: int, e: nat, x: nat, k: nat, y: nat, n: nat)
    requires PowerIs(b, e, x, n) && x * b == k * n + y
    ensures PowerIs(b, e + 1, y, n)
  {
    hide Times, Divides, Power;
    PowerOne(b, n);
    PowerMul(b, e, x, 1, b, n);
    Reduce(b, e + 1, x, b, k, y, n);
  }

  lemma Reduce(b: int, e: nat, x: int, x': int, k: int, y: int, n: int)
    requires PowerIs(b, e, Times(x, x'), n) && x * x' == k * n + y
    ensures PowerIs(b, e, y, n)
  {
    hide Times, Divides, Power;
    TimesIs(x, x');
    TimesIs(k, n);
    DividesBy(n, Times(k, n), k);
    DividesSum(n, Power(b, e) - Times(x, x'), Times(k, n));
  }

  /** (b^i)^j = b^(i*j), for residues. */
  lemma {:induction false} PowerOfPower(b: int, i: nat, y: int, j: nat, n: int)
    requires PowerIs(b, i, y, n)
    ensures Times(i, j) >= 0 && Divides(n, Power(b, Times(i, j)) - Power(y, j))
  {
    hide Times, Divides;
    TimesNat(i, j);
    if j == 0 {
      TimesZero(i);
      TimesZero(n);
      DividesBy(n, 0, 0);
    } else {
      PowerOfPower(b, i, y, j - 1, n);
      TimesAdd(j - 1, 1, i);
      TimesOne(i);
      PowerAdd(b, i, Times(i, j - 1));
      CongruentProduct(n, Power(b, i), y, Power(b, Times(i, j - 1)), Power(y, j - 1));
    }
  }

  lemma UnitBy(b: nat, e: nat, n: nat, y: nat, u: nat)
    requires n > 1 && PowerIs(b, e, y, n) && y >= 1 && u * (y - 1) % n == 1
    ensures UnitPower(b, e, n)
  {
    hide Times, Divides, Power;
    var x := Power(b, e);
    TimesIs(u, y - 1);
    DividesMod(n, Times(u, y - 1));
    DividesMultiple(n, x - y, u);
    TimesSub(x - 1, y - 1, u);
    DividesSum(n, Times(u, x - y), Times(u, y - 1) - 1);
    assert Inverse(u, x - 1, n);
  }

  /** The check: n is prime because of b, whose order is q1 * q2 modulo every prime factor of n.
      y1 and y2 are b^q1 and b^q2, and u1, u2 invert y1 - 1 and y2 - 1. */
  lemma CheckCertificate(n: nat, q1: nat, q2: nat, b: nat, y1: nat, u1: nat, y2: nat, u2: nat)
    requires IsPrime(q1) && IsPrime(q2) && n > 1
    requires n <= (q1 * q2) * (q1 * q2)
    requires PowerIs(b, q1, y1, n) && y1 >= 1 && u1 * (y1 - 1) % n == 1
    requires PowerIs(b, q2, y2, n) && y2 >= 1 && u2 * (y2 - 1) % n == 1
    requires PowerIs(y1, q2, 1, n)
    ensures IsPrime(n)
  {
    hide Times, Divides, Power, IsPrime;
    var f := Times(q1, q2);
    TimesIs(q1, q2);
    TimesIs(f, f);
    PowerOfPower(b, q1, y1, q2, n);
    DividesSum(n, Power(b, f) - Power(y1, q2), Power(y1, q2) - 1);
    forall q, e: nat | DropsPrime(q, e, f)
      ensures UnitPower(b, e, n)
    {
      FactorsOfProduct(q1, q2, q, e);
      if e == q2 { UnitBy(b, q2, n, y2, u2); } else { UnitBy(b, q1, n, y1, u1); }
    }
    CertifiedIsPrime(n, f, b);
  }

  // ----- The largest prime of 32 bits -----

  const LARGEST_32: nat := 0xffff_fffb

  function NoRemainderZero(n: nat, i: nat): bool {
    i < 2 || (n % i != 0 && NoRemainderZero(n, i - 1))
  }

  lemma {:induction false} NoRemainderZeroIs(n: nat, i: nat)
    requires NoRemainderZero(n, i)
    ensures NoDivisorBelow(n, i + 1)
  {
    hide Divides;
    if i >= 2 {
      NoRemainderZeroIs(n, i - 1);
      DividesMod(i, n);
    }
  }

  lemma SmallPrime(n: nat, i: nat)
    requires n >= 2 && NoRemainderZero(n, i) && n < (i + 1) * (i + 1)
    ensures IsPrime(n)
  {
    hide Times, Divides, IsPrime, NoRemainderZero;
    NoRemainderZeroIs(n, i);
    TimesIs(i + 1, i + 1);
    TrialDivision(n, i + 1);
  }

  lemma Powers181()
    ensures PowerIs(18389778, 181, 13954217, 22605091)
  {
    hide Times, Divides, Power;
    PowerOne(18389778, 22605091);
    Square(18389778, 1, 18389778, 14960520, 18881964, 22605091);
    Square(18389778, 2, 18881964, 15772047, 6806019, 22605091);
    MultiplyBase(18389778, 4, 6806019, 5536857, 22134795, 22605091);
    Square(18389778, 5, 22134795, 21674283, 10117272, 22605091);
    MultiplyBase(18389778, 10, 10117272, 8230640, 19857376, 22605091);
    Square(18389778, 11, 19857376, 17443653, 18167953, 22605091);
    Square(18389778, 22, 18167953, 14601777, 18363502, 22605091);
    MultiplyBase(18389778, 44, 18363502, 14939144, 15500452, 22605091);
    Square(18389778, 45, 15500452, 10628756, 15607508, 22605091);
    Square(18389778, 90, 15607508, 10776081, 14341693, 22605091);
    MultiplyBase(18389778, 180, 14341693, 11667307, 13954217, 22605091);
  }

  lemma Powers181Again()
    ensures PowerIs(13954217, 181, 1, 22605091)
  {
    hide Times, Divides, Power;
    PowerOne(13954217, 22605091);
    Square(13954217, 1, 13954217, 8613996, 8629453, 22605091);
    Square(13954217, 2, 8629453, 3294278, 5109911, 22605091);
    MultiplyBase(13954217, 4, 5109911, 3154369, 8652108, 22605091);
    Square(13954217, 5, 8652108, 3311597, 21303337, 22605091);
    MultiplyBase(13954217, 10, 21303337, 13150638, 18624071, 22605091);
    Square(13954217, 11, 18624071, 15344155, 519936, 22605091);
    Square(13954217, 22, 519936, 11958, 21765918, 22605091);
    MultiplyBase(13954217, 44, 21765918, 13436192, 122734, 22605091);
    Square(13954217, 45, 122734, 666, 8644150, 22605091);
    Square(13954217, 90, 8644150, 3305508, 20081272, 22605091);
    MultiplyBase(13954217, 180, 20081272, 12396253, 1, 22605091);
  }

  lemma PowersLarge()
    ensures PowerIs(1024, 22605091, 81549662, 0xffff_fffb)
  {
    hide Times, Divides, Power;
    PowerOne(1024, 0xffff_fffb);
    Square(1024, 1, 1024, 0, 1048576, 0xffff_fffb);
    Square(1024, 2, 1048576, 256, 1280, 0xffff_fffb);
    MultiplyBase(1024, 4, 1280, 0, 1310720, 0xffff_fffb);
    Square(1024, 5, 1310720, 400, 2000, 0xffff_fffb);
    Square(1024, 10, 2000, 0, 4000000, 0xffff_fffb);
    MultiplyBase(1024, 20, 4000000, 0, 4096000000, 0xffff_fffb);
    Square(1024, 21, 4096000000, 3906250004, 2351380836, 0xffff_fffb);
    MultiplyBase(1024, 42, 2351380836, 560, 2632293104, 0xffff_fffb);
    Square(1024, 43, 2632293104, 1613275844, 4025536212, 0xffff_fffb);
    Square(1024, 86, 4025536212, 3773007032, 2970318632, 0xffff_fffb);
    Square(1024, 172, 2970318632, 2054216523, 689602231, 0xffff_fffb);
    Square(1024, 344, 689602231, 110722900, 3135513461, 0xffff_fffb);
    MultiplyBase(1024, 688, 3135513461, 747, 2425217687, 0xffff_fffb);
    Square(1024, 689, 2425217687, 1369435534, 3674511575, 0xffff_fffb);
    MultiplyBase(1024, 1378, 3674511575, 876, 308505884, 0xffff_fffb);
    Square(1024, 1379, 308505884, 22159861, 2294514905, 0xffff_fffb);
    MultiplyBase(1024, 2758, 2294514905, 547, 236154543, 0xffff_fffb);
    Square(1024, 2759, 236154543, 12984724, 3316876165, 0xffff_fffb);
    Square(1024, 5518, 3316876165, 2561525326, 3706995359, 0xffff_fffb);
    MultiplyBase(1024, 11036, 3706995359, 883, 3507129663, 0xffff_fffb);
    Square(1024, 11037, 3507129663, 2863807251, 2320866528, 0xffff_fffb);
    MultiplyBase(1024, 22074, 2320866528, 553, 1450412749, 0xffff_fffb);
    Square(1024, 22075, 1450412749, 489805160, 1298715441, 0xffff_fffb);
    Square(1024, 44150, 1298715441, 392706552, 890433849, 0xffff_fffb);
    MultiplyBase(1024, 88300, 890433849, 212, 1271195684, 0xffff_fffb);
    Square(1024, 88301, 1271195684, 376239993, 3519158893, 0xffff_fffb);
    Square(1024, 176602, 3519158893, 2883486293, 1699143186, 0xffff_fffb);
    Square(1024, 353204, 1699143186, 672202457, 785396609, 0xffff_fffb);
    MultiplyBase(1024, 706408, 785396609, 187, 1087244199, 0xffff_fffb);
    Square(1024, 706409, 1087244199, 275229092, 587521829, 0xffff_fffb);
    Square(1024, 1412818, 587521829, 80368923, 4053607648, 0xffff_fffb);
    Square(1024, 2825636, 4053607648, 3825811432, 1950221192, 0xffff_fffb);
    Square(1024, 5651272, 1950221192, 885539385, 4258644829, 0xffff_fffb);
    MultiplyBase(1024, 11302544, 4258644829, 1015, 1460504531, 0xffff_fffb);
    Square(1024, 11302545, 1460504531, 496644873, 293680918, 0xffff_fffb);
    MultiplyBase(1024, 22605090, 293680918, 70, 81549662, 0xffff_fffb);
  }

  lemma Powers19()
    ensures PowerIs(1024, 19, 1073745729, 0xffff_fffb)
  {
    hide Times, Divides, Power;
    PowerOne(1024, 0xffff_fffb);
    Square(1024, 1, 1024, 0, 1048576, 0xffff_fffb);
    Square(1024, 2, 1048576, 256, 1280, 0xffff_fffb);
    Square(1024, 4, 1280, 0, 1638400, 0xffff_fffb);
    MultiplyBase(1024, 8, 1638400, 0, 1677721600, 0xffff_fffb);
    Square(1024, 9, 1677721600, 655360000, 3276800000, 0xffff_fffb);
    MultiplyBase(1024, 18, 3276800000, 781, 1073745729, 0xffff_fffb);
  }

  lemma Powers19Again()
    ensures PowerIs(81549662, 19, 1, 0xffff_fffb)
  {
    hide Times, Divides, Power;
    PowerOne(81549662, 0xffff_fffb);
    Square(81549662, 1, 81549662, 1548404, 2839060680, 0xffff_fffb);
    Square(81549662, 2, 2839060680, 1876676816, 4224036944, 0xffff_fffb);
    Square(81549662, 4, 4224036944, 4154277994, 2325764882, 0xffff_fffb);
    MultiplyBase(81549662, 8, 2325764882, 44159903, 1059837111, 0xffff_fffb);
    Square(81549662, 9, 1059837111, 261528115, 2250939856, 0xffff_fffb);
    MultiplyBase(81549662, 18, 2250939856, 42739181, 1, 0xffff_fffb);
  }

  /** 2^32 - 5 is prime: 2^32 - 6 = 2 * 5 * 19 * 22605091, and 22605090 = 2 * 3 * 5 * 23 * 181^2. */
  lemma Largest32IsPrime()
    ensures IsPrime(LARGEST_32)
  {
    hide Times, Divides, Power, IsPrime;
    SmallPrime(181, 13);
    SmallPrime(19, 4);
    Powers181();
    Powers181Again();
    CheckCertificate(22605091, 181, 181, 18389778, 13954217, 19569746, 13954217, 19569746);
    PowersLarge();
    Powers19();
    Powers19Again();
    CheckCertificate(LARGEST_32, 22605091, 19, 1024, 81549662, 2366009040, 1073745729, 1771216906);
  }
}
