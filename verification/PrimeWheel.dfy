/** `__next_prime`: the least prime from a number on, searched along the wheel of the
    numbers that 2, 3, 5 and 7 do not divide. */
module PrimeWheel {
  import opened Products
  import opened Primality

  /** The table `small_primes`, by position. */
  function SmallPrimes(j: nat): nat {
    match j
    case 0 => 0 case 1 => 2 case 2 => 3 case 3 => 5 case 4 => 7 case 5 => 11 case 6 => 13 case 7 => 17
    case 8 => 19 case 9 => 23 case 10 => 29 case 11 => 31 case 12 => 37 case 13 => 41 case 14 => 43
    case 15 => 47 case 16 => 53 case 17 => 59 case 18 => 61 case 19 => 67 case 20 => 71 case 21 => 73
    case 22 => 79 case 23 => 83 case 24 => 89 case 25 => 97 case 26 => 101 case 27 => 103 case 28 => 107
    case 29 => 109 case 30 => 113 case 31 => 127 case 32 => 131 case 33 => 137 case 34 => 139 case 35 => 149
    case 36 => 151 case 37 => 157 case 38 => 163 case 39 => 167 case 40 => 173 case 41 => 179 case 42 => 181
    case 43 => 191 case 44 => 193 case 45 => 197 case 46 => 199 case 47 => 211
    case _ => 0
  }

  /** The table `indices`: the residues modulo 210 that are coprime to 210. */
  function Indices(j: nat): nat {
    match j
    case 0 => 1 case 1 => 11 case 2 => 13 case 3 => 17 case 4 => 19 case 5 => 23 case 6 => 29 case 7 => 31
    case 8 => 37 case 9 => 41 case 10 => 43 case 11 => 47 case 12 => 53 case 13 => 59 case 14 => 61
    case 15 => 67 case 16 => 71 case 17 => 73 case 18 => 79 case 19 => 83 case 20 => 89 case 21 => 97
    case 22 => 101 case 23 => 103 case 24 => 107 case 25 => 109 case 26 => 113 case 27 => 121 case 28 => 127
    case 29 => 131 case 30 => 137 case 31 => 139 case 32 => 143 case 33 => 149 case 34 => 151 case 35 => 157
    case 36 => 163 case 37 => 167 case 38 => 169 case 39 => 173 case 40 => 179 case 41 => 181 case 42 => 187
    case 43 => 191 case 44 => 193 case 45 => 197 case 46 => 199 case 47 => 209
    case _ => 0
  }

  /** The steps of the unrolled factor loop, from 211 round to 211 + 210. */
  function Increments(j: nat): nat {
    match j
    case 0 => 10 case 1 => 2 case 2 => 4 case 3 => 2 case 4 => 4 case 5 => 6 case 6 => 2 case 7 => 6
    case 8 => 4 case 9 => 2 case 10 => 4 case 11 => 6 case 12 => 6 case 13 => 2 case 14 => 6 case 15 => 4
    case 16 => 2 case 17 => 6 case 18 => 4 case 19 => 6 case 20 => 8 case 21 => 4 case 22 => 2 case 23 => 4
    case 24 => 2 case 25 => 4 case 26 => 8 case 27 => 6 case 28 => 4 case 29 => 6 case 30 => 2 case 31 => 4
    case 32 => 6 case 33 => 2 case 34 => 6 case 35 => 6 case 36 => 4 case 37 => 2 case 38 => 4 case 39 => 6
    case 40 => 2 case 41 => 6 case 42 => 4 case 43 => 2 case 44 => 4 case 45 => 2 case 46 => 10 case 47 => 2
    case _ => 0
  }

  // ----- What the tables hold, checked entry by entry -----

  ghost predicate InGap(x: int, next: int) { x < next ==> x % 3 == 0 || x % 5 == 0 || x % 7 == 0 }

  /** An index, its step to the next one, and the odd numbers in between. */
  ghost predicate WheelEntry(j: nat) {
    var x, next := Indices(j), Indices(j + 1);
    && x % 2 == 1 && x % 3 != 0 && x % 5 != 0 && x % 7 != 0
    && x < next == x + Increments(j) <= x + 10
    && InGap(x + 2, next) && InGap(x + 4, next) && InGap(x + 6, next) && InGap(x + 8, next)
  }

  ghost predicate InPrimeGap(x: int, next: int) {
    x < next ==> x % 3 == 0 || x % 5 == 0 || x % 7 == 0 || x % 11 == 0 || x % 13 == 0
  }

  ghost predicate NoFactorUpTo13(x: int) {
    x % 2 != 0 && x % 3 != 0 && x % 5 != 0 && x % 7 != 0 && x % 11 != 0 && x % 13 != 0
  }

  /** A table prime from 11 on, and the odd numbers up to the next one. */
  ghost predicate PrimeEntry(j: nat) {
    var x, next := SmallPrimes(j), SmallPrimes(j + 1);
    && x % 2 == 1 && 11 <= x < next <= x + 14 && next <= 2 * x && next < 256
    && (j >= 6 ==> NoFactorUpTo13(next))
    && InPrimeGap(x + 2, next) && InPrimeGap(x + 4, next) && InPrimeGap(x + 6, next)
    && InPrimeGap(x + 8, next) && InPrimeGap(x + 10, next) && InPrimeGap(x + 12, next)
  }

  ghost predicate WheelEntries(j: nat, count: nat)
    decreases count
  {
    count == 0 || (WheelEntry(j) && WheelEntries(j + 1, count - 1))
  }

  ghost predicate PrimeEntries(j: nat, count: nat)
    decreases count
  {
    count == 0 || (PrimeEntry(j) && PrimeEntries(j + 1, count - 1))
  }

  lemma {:induction false} WheelEntriesHold(j: nat, count: nat, i: nat)
    requires WheelEntries(j, count) && j <= i < j + count
    ensures WheelEntry(i)
    decreases count
  {
    hide WheelEntry;
    if i > j { WheelEntriesHold(j + 1, count - 1, i); }
  }

  lemma {:induction false} PrimeEntriesHold(j: nat, count: nat, i: nat)
    requires PrimeEntries(j, count) && j <= i < j + count
    ensures PrimeEntry(i)
    decreases count
  {
    hide PrimeEntry;
    if i > j { PrimeEntriesHold(j + 1, count - 1, i); }
  }

  lemma WheelTable1() ensures WheelEntries(0, 8) {}
  lemma WheelTable2() ensures WheelEntries(8, 8) {}
  lemma WheelTable3() ensures WheelEntries(16, 8) {}
  lemma WheelTable4() ensures WheelEntries(24, 8) {}
  lemma WheelTable5() ensures WheelEntries(32, 8) {}
  lemma WheelTable6() ensures WheelEntries(40, 7) {}

  lemma PrimeTable1() ensures PrimeEntries(5, 8) {}
  lemma PrimeTable2() ensures PrimeEntries(13, 8) {}
  lemma PrimeTable3() ensures PrimeEntries(21, 8) {}
  lemma PrimeTable4() ensures PrimeEntries(29, 8) {}
  lemma PrimeTable5() ensures PrimeEntries(37, 8) {}
  lemma PrimeTable6() ensures PrimeEntries(45, 2) {}

  lemma WheelTable(j: nat)
    requires j < 47
    ensures WheelEntry(j)
  {
    hide WheelEntries, WheelEntry;
    WheelTable1();
    WheelTable2();
    WheelTable3();
    WheelTable4();
    WheelTable5();
    WheelTable6();
    var start := j / 8 * 8;
    WheelEntriesHold(start, if start == 40 then 7 else 8, j);
  }

  lemma PrimeTable(j: nat)
    requires 5 <= j < 47
    ensures PrimeEntry(j)
  {
    hide PrimeEntries, PrimeEntry;
    PrimeTable1();
    PrimeTable2();
    PrimeTable3();
    PrimeTable4();
    PrimeTable5();
    PrimeTable6();
    var start := (j - 5) / 8 * 8 + 5;
    PrimeEntriesHold(start, if start == 45 then 2 else 8, j);
  }

  lemma Ends()
    ensures SmallPrimes(0) == 0 && SmallPrimes(5) == 11 && SmallPrimes(47) == 211
    ensures Indices(0) == 1 && Indices(47) == 209 && Increments(47) == 2
  {
  }

  // ----- From tables to primes -----

  lemma NotPrimeBy(d: nat, f: nat)
    requires 2 <= f < d && d % f == 0
    ensures !IsPrime(d)
  {
    hide Times, Divides;
    DividesMod(f, d);
  }

  /** Multiples of a small number are composite. */
  lemma MultipleIsComposite(d: nat)
    requires d > 13 && !NoFactorUpTo13(d)
    ensures !IsPrime(d)
  {
    hide Times, Divides, IsPrime;
    if d % 2 == 0 { NotPrimeBy(d, 2); }
    else if d % 3 == 0 { NotPrimeBy(d, 3); }
    else if d % 5 == 0 { NotPrimeBy(d, 5); }
    else if d % 7 == 0 { NotPrimeBy(d, 7); }
    else if d % 11 == 0 { NotPrimeBy(d, 11); }
    else { NotPrimeBy(d, 13); }
  }

  lemma FirstPrimes()
    ensures IsPrime(2) && IsPrime(3) && IsPrime(5) && IsPrime(7) && IsPrime(11) && IsPrime(13)
  {
    hide Times, Divides, IsPrime;
    SmallPrime(2, 1);
    SmallPrime(3, 1);
    SmallPrime(5, 2);
    SmallPrime(7, 2);
    SmallPrime(11, 3);
    SmallPrime(13, 3);
  }

  lemma NotDivided(n: nat, d: nat, f: nat)
    requires 2 <= f && d % f == 0 && d > 0 && n % f != 0
    ensures !Divides(d, n)
  {
    hide Times, Divides;
    DividesMod(f, n);
    DividesMod(f, d);
    if Divides(d, n) { DividesTrans(f, d, n); }
  }

  lemma NoDivisorBelow11(n: nat)
    requires n % 2 != 0 && n % 3 != 0 && n % 5 != 0 && n % 7 != 0
    ensures NoDivisorBelow(n, 11)
  {
    hide Divides;
    forall d | 2 <= d < 11 ensures !Divides(d, n) {
      NotDivided(n, d, if d % 2 == 0 then 2 else if d % 3 == 0 then 3 else d);
    }
  }

  lemma NoDivisorBelow17(n: nat)
    requires NoFactorUpTo13(n)
    ensures NoDivisorBelow(n, 17)
  {
    hide Divides;
    forall d | 2 <= d < 17 ensures !Divides(d, n) {
      NotDivided(n, d, if d % 2 == 0 then 2 else if d % 3 == 0 then 3 else if d % 5 == 0 then 5 else d);
    }
  }

  lemma TablePrime(j: nat)
    requires 1 <= j < 48
    ensures IsPrime(SmallPrimes(j))
  {
    hide Times, Divides, IsPrime, SmallPrimes;
    if j >= 7 {
      PrimeTable(j - 1);
      NoDivisorBelow17(SmallPrimes(j));
      TimesIs(17, 17);
      TrialDivision(SmallPrimes(j), 17);
    } else {
      FirstPrimes();
      FirstEntries();
      assert j == 1 || j == 2 || j == 3 || j == 4 || j == 5 || j == 6;
    }
  }

  lemma FirstEntries()
    ensures SmallPrimes(1) == 2 && SmallPrimes(2) == 3 && SmallPrimes(3) == 5
    ensures SmallPrimes(4) == 7 && SmallPrimes(5) == 11 && SmallPrimes(6) == 13
  {
  }

  /** Between neighbours of the table there is no prime. */
  lemma NoPrimeInTableGap(j: nat, d: nat)
    requires j < 47 && SmallPrimes(j) < d < SmallPrimes(j + 1)
    ensures !IsPrime(d)
  {
    hide Times, Divides, IsPrime, SmallPrimes;
    if j >= 5 {
      PrimeGapNumber(j, d);
      FirstEntries();
      if j == 5 {
        NotPrimeBy(12, 2);
      } else {
        if j >= 7 { PrimeTable(j - 1); }
        MultipleIsComposite(d);
      }
    } else {
      NoPrimeInFirstGaps(j, d);
    }
  }

  lemma PrimeGapNumber(j: nat, d: nat)
    requires 5 <= j < 47 && SmallPrimes(j) < d < SmallPrimes(j + 1)
    ensures !NoFactorUpTo13(d) && SmallPrimes(j) >= 11
  {
    hide SmallPrimes;
    PrimeTable(j);
    OddGap(SmallPrimes(j), SmallPrimes(j + 1), d - SmallPrimes(j));
  }

  lemma OddGap(x: int, next: int, t: int)
    requires x % 2 == 1 && 0 < t < next - x <= 14
    requires InPrimeGap(x + 2, next) && InPrimeGap(x + 4, next) && InPrimeGap(x + 6, next)
    requires InPrimeGap(x + 8, next) && InPrimeGap(x + 10, next) && InPrimeGap(x + 12, next)
    ensures !NoFactorUpTo13(x + t)
  {
    hide InPrimeGap, NoFactorUpTo13;
    if t == 2 || t == 4 || t == 6 || t == 8 || t == 10 || t == 12 {
      GapMember(x + t, next);
    } else {
      EvenMember(x + t);
    }
  }

  lemma EvenMember(y: int)
    requires y % 2 == 0
    ensures !NoFactorUpTo13(y)
  {
  }

  lemma GapMember(y: int, next: int)
    requires InPrimeGap(y, next) && y < next
    ensures !NoFactorUpTo13(y)
  {
  }

  lemma NoPrimeInFirstGaps(j: nat, d: nat)
    requires j < 5 && SmallPrimes(j) < d < SmallPrimes(j + 1)
    ensures !IsPrime(d)
  {
    hide Times, Divides;
    FirstEntries();
    Ends();
    if d == 9 { NotPrimeBy(9, 3); } else if d >= 2 { NotPrimeBy(d, 2); }
  }

  // ----- The wheel -----

  /** A number on the wheel: 210 * k + indices[j]. */
  ghost predicate OnWheel(n: int, k: int, j: int) {
    0 <= j < 48 && k >= 1 && n == 210 * k + Indices(j)
  }

  lemma WheelStep(n: int, k: int, j: int)
    requires OnWheel(n, k, j)
    ensures n > 210 && 0 < Increments(j) <= 10
    ensures if j == 47 then OnWheel(n + Increments(j), k + 1, 0) else OnWheel(n + Increments(j), k, j + 1)
  {
    hide Indices, Increments;
    Ends();
    if j < 47 { StepEntry(j); }
  }

  lemma StepEntry(j: nat)
    requires j < 47
    ensures Indices(j + 1) == Indices(j) + Increments(j) && 0 < Increments(j) <= 10
    ensures Indices(j) > 0
  {
    hide Indices, Increments;
    WheelTable(j);
  }

  /** The wheel skips no prime. */
  lemma NoPrimeInWheelGap(n: int, k: int, j: int, d: int)
    requires OnWheel(n, k, j) && n < d < n + Increments(j)
    ensures !IsPrime(d)
  {
    hide Indices, Increments, IsPrime;
    Ends();
    if j < 47 {
      StepEntry(j);
      WheelTable(j);
      GapNumber(k, Indices(j), Indices(j + 1), d - n);
    }
    MultipleIsComposite(d);
  }

  /** Adding a multiple of 210 changes no remainder by 2, 3, 5 or 7. */
  lemma GapNumber(k: int, x: int, next: int, t: int)
    requires x % 2 == 1 && 0 < t < next - x <= 10
    requires InGap(x + 2, next) && InGap(x + 4, next) && InGap(x + 6, next) && InGap(x + 8, next)
    ensures !NoFactorUpTo13(210 * k + (x + t))
  {
    Remainders(k, x + t);
    if t % 2 == 0 {
      assert t == 2 || t == 4 || t == 6 || t == 8;
    } else {
      assert (x + t) % 2 == 0;
    }
  }

  lemma Remainders(k: int, y: int)
    ensures (210 * k + y) % 2 == y % 2 && (210 * k + y) % 3 == y % 3
    ensures (210 * k + y) % 5 == y % 5 && (210 * k + y) % 7 == y % 7
  {
    SameRemainder2(105 * k, y);
    SameRemainder3(70 * k, y);
    SameRemainder5(42 * k, y);
    SameRemainder7(30 * k, y);
  }

  lemma SameRemainder2(q: int, y: int) ensures (2 * q + y) % 2 == y % 2 {}
  lemma SameRemainder3(q: int, y: int) ensures (3 * q + y) % 3 == y % 3 {}
  lemma SameRemainder5(q: int, y: int) ensures (5 * q + y) % 5 == y % 5 {}
  lemma SameRemainder7(q: int, y: int) ensures (7 * q + y) % 7 == y % 7 {}

  lemma WheelNotDivided(n: int, k: int, j: int)
    requires OnWheel(n, k, j)
    ensures NoDivisorBelow(n, 11)
  {
    hide Indices, Increments, Divides;
    Ends();
    if j < 47 { WheelTable(j); }
    Remainders(k, Indices(j));
    NoDivisorBelow11(n);
  }

  // ----- The factor loops -----

  /** Trial division goes on from p to p' when nothing in between is prime. */
  lemma Extend(n: int, p: nat, p': nat)
    requires 2 <= p < p' <= 2 * p
    requires NoDivisorBelow(n, p) && !Divides(p, n)
    requires forall d | p < d < p' :: !IsPrime(d)
    ensures NoDivisorBelow(n, p')
  {
    hide Times, Divides;
    forall d | 2 <= d < p'
      ensures !Divides(d, n)
    {
      if d > p && Divides(d, n) {
        var f := FactorBelowRoot(d);
        HalfRoot(f, d);
        DividesTrans(f, d, n);
      }
    }
  }

  lemma HalfRoot(f: int, d: int)
    requires IsPrime(f) && Times(f, f) <= d
    ensures 2 <= f && 2 * f <= d
  {
    hide Times, Divides;
    TimesMono(2, f, f);
    TimesIs(2, f);
  }

  datatype Verdict = Prime | Composite | Unknown

  /** n / i against i, and then the division itself. */
  method Trial(n: nat, i: nat) returns (v: Verdict)
    requires n >= 2 && i >= 2 && NoDivisorBelow(n, i)
    ensures v == Prime ==> IsPrime(n)
    ensures v == Composite ==> !IsPrime(n)
    ensures v == Unknown ==> !Divides(i, n) && i < n
  {
    hide Times, Divides, IsPrime;
    var q := n / i;
    Euclid(n, i);
    DividesMod(i, n);
    if q < i {
      TimesMono(q + 1, i, i);
      TimesAdd(q, 1, i);
      TimesOne(i);
      TrialDivision(n, i);
      return Prime;
    }
    TimesIs(q, i);
    TimesMono(2, q, i);
    TimesIs(2, i);
    if n == q * i {
      NotPrimeBy(n, i);
      return Composite;
    }
    return Unknown;
  }

  /** Division by the primes 11, 13, ..., 199 of the table. */
  method TryTable(n: nat) returns (v: Verdict)
    requires n > 211 && NoDivisorBelow(n, 11)
    ensures v == Prime ==> IsPrime(n)
    ensures v == Composite ==> !IsPrime(n)
    ensures v == Unknown ==> NoDivisorBelow(n, 211)
  {
    hide Times, Divides, IsPrime, SmallPrimes, NoDivisorBelow;
    var j := 5;
    Ends();
    while j < 47
      invariant 5 <= j <= 47 && NoDivisorBelow(n, SmallPrimes(j))
    {
      PrimeTable(j);
      v := Trial(n, SmallPrimes(j));
      if v != Unknown { return; }
      forall d | SmallPrimes(j) < d < SmallPrimes(j + 1) ensures !IsPrime(d) {
        NoPrimeInTableGap(j, d);
      }
      Extend(n, SmallPrimes(j), SmallPrimes(j + 1));
      j := j + 1;
    }
    v := Unknown;
  }

  /** Division by the numbers on the wheel from 211 on, to the square root. */
  method TryWheel(n: nat) returns (v: Verdict)
    requires n > 211 && NoDivisorBelow(n, 211)
    ensures v == Prime ==> IsPrime(n)
    ensures v == Composite ==> !IsPrime(n)
    ensures v != Unknown
  {
    hide Times, Divides, IsPrime, Indices, Increments, NoDivisorBelow;
    var i, step := 211, 0;
    ghost var k := 1;
    Ends();
    while true
      invariant OnWheel(i, k, step) && NoDivisorBelow(n, i)
      decreases n + 10 - i
    {
      v := Trial(n, i);
      if v != Unknown { return; }
      WheelStep(i, k, step);
      forall d | i < d < i + Increments(step) ensures !IsPrime(d) {
        NoPrimeInWheelGap(i, k, step, d);
      }
      Extend(n, i, i + Increments(step));
      i := i + Increments(step);
      k := if step == 47 then k + 1 else k;
      step := if step == 47 then 0 else step + 1;
    }
  }

  // ----- The routine -----

  /** The search reaches past the largest number that the source lets in. */
  datatype Result = Overflow | Least(p: nat)

  /** p is the least prime that is at least n. */
  ghost predicate LeastPrime(n: int, p: int) {
    IsPrime(p) && n <= p && forall d | n <= d < p :: !IsPrime(d)
  }

  /** std::lower_bound in one of the two tables. */
  method LowerBound(indices: bool, x: nat) returns (i: nat)
    requires x <= if indices then 209 else 211
    ensures i < 48
    ensures i > 0 ==> Entry(indices, i - 1) < x
    ensures x <= Entry(indices, i)
  {
    hide Indices, SmallPrimes;
    Ends();
    var len := 48;
    i := 0;
    while len > 0
      invariant 0 <= len && i + len <= 48
      invariant i > 0 ==> Entry(indices, i - 1) < x
      invariant i + len < 48 ==> x <= Entry(indices, i + len)
    {
      var half := len / 2;
      if Entry(indices, i + half) < x {
        i := i + half + 1;
        len := len - half - 1;
      } else {
        len := half;
      }
    }
  }

  function Entry(indices: bool, i: nat): nat { if indices then Indices(i) else SmallPrimes(i) }

  /** `__next_prime` for a 32-bit size_t. */
  method NextPrime(n0: nat) returns (r: Result)
    requires n0 < 0x1_0000_0000
    ensures n0 == 0 ==> r == Least(0)
    ensures n0 > 0 && r.Least? ==> LeastPrime(n0, r.p) && r.p < 0x1_0000_0000
    ensures r.Overflow? <==> forall p | n0 <= p < 0x1_0000_0000 :: !IsPrime(p)
  {
    hide Times, Divides, IsPrime, Indices, Increments, SmallPrimes, NoDivisorBelow;
    Ends();
    Largest32IsPrime();
    if n0 <= 211 {
      var j := LowerBound(false, n0);
      if n0 > 0 {
        TablePrime(j);
        forall d | n0 <= d < SmallPrimes(j) ensures !IsPrime(d) {
          NoPrimeInTableGap(j - 1, d);
        }
      } else {
        assert j == 0 by { FirstEntryOnly(j); }
      }
      return Least(SmallPrimes(j));
    }
    if n0 > 0xffff_fffb {
      NothingAboveLargest();
      return Overflow;
    }
    var k0 := n0 / 210;
    var in_ := LowerBound(true, n0 - k0 * 210);
    var n := 210 * k0 + Indices(in_);
    FirstCandidate(n0, k0, in_);
    while true
      invariant OnWheel(n, k0, in_) && n0 <= n <= LARGEST_32
      invariant forall d | n0 <= d < n :: !IsPrime(d)
      decreases LARGEST_32 - n
    {
      WheelNotDivided(n, k0, in_);
      assert n > 211;
      var v := TryTable(n);
      if v == Unknown {
        v := TryWheel(n);
      }
      if v == Prime {
        return Least(n);
      }
      WheelStep(n, k0, in_);
      ghost var step := Increments(in_);
      forall d | n < d < n + step ensures !IsPrime(d) {
        NoPrimeInWheelGap(n, k0, in_, d);
      }
      assert forall d | n0 <= d < n + step :: !IsPrime(d);
      assert LARGEST_32 >= n + step;
      in_ := in_ + 1;
      if in_ == 48 {
        k0 := k0 + 1;
        in_ := 0;
      }
      n := 210 * k0 + Indices(in_);
    }
  }

  lemma FirstEntryOnly(j: nat)
    requires j < 48 && (j > 0 ==> SmallPrimes(j - 1) < 0)
    ensures j == 0
  {
  }

  lemma FirstCandidate(n0: nat, k: nat, j: nat)
    requires 211 < n0 && k == n0 / 210 && j < 48
    requires n0 - k * 210 <= Indices(j)
    requires j > 0 ==> Indices(j - 1) < n0 - k * 210
    ensures OnWheel(210 * k + Indices(j), k, j) && n0 <= 210 * k + Indices(j)
    ensures forall d | n0 <= d < 210 * k + Indices(j) :: !IsPrime(d)
  {
    hide Times, Divides, IsPrime, Indices, Increments;
    Ends();
    forall d | n0 <= d < 210 * k + Indices(j) ensures !IsPrime(d) {
      if j > 0 {
        WheelTable(j - 1);
        NoPrimeInWheelGap(210 * k + Indices(j - 1), k, j - 1, d);
      } else {
        MultipleIsComposite(d);
      }
    }
  }

  /** 2^32 - 4, ..., 2^32 - 1 are composite. */
  lemma NothingAboveLargest()
    ensures forall p | 0xffff_fffb < p < 0x1_0000_0000 :: !IsPrime(p)
  {
    hide Times, Divides, IsPrime;
    NotPrimeBy(0xffff_fffc, 2);
    NotPrimeBy(0xffff_fffd, 9241);
    NotPrimeBy(0xffff_fffe, 2);
    NotPrimeBy(0xffff_ffff, 3);
  }
}
