/** Multiplication behind a name. Proofs hide `Times` and use the laws below, so that
    the verifier meets products of two variables only in these one-step lemmas. */
module Products {
  import opened Bits

  ghost function Times(x: int, y: int): int { x * y }

  lemma TimesIs(x: int, y: int)
    ensures Times(x, y) == x * y
  {
  }

  lemma TimesZero(x: int)
    ensures Times(0, x) == 0 && Times(x, 0) == 0
  {
  }

  lemma TimesOne(x: int)
    ensures Times(1, x) == x && Times(x, 1) == x
  {
  }

  lemma TimesComm(x: int, y: int)
    ensures Times(x, y) == Times(y, x)
  {
  }

  lemma TimesAssoc(x: int, y: int, z: int)
    ensures Times(Times(x, y), z) == Times(x, Times(y, z))
  {
    assert (x * y) * z == x * (y * z);
  }

  lemma TimesAdd(x: int, y: int, d: int)
    ensures Times(x + y, d) == Times(x, d) + Times(y, d)
    ensures Times(d, x + y) == Times(d, x) + Times(d, y)
  {
  }

  lemma TimesSub(x: int, y: int, d: int)
    ensures Times(x - y, d) == Times(x, d) - Times(y, d)
    ensures Times(d, x - y) == Times(d, x) - Times(d, y)
  {
  }

  lemma TimesDouble(x: int, y: int)
    ensures Times(2 * x, y) == 2 * Times(x, y) && Times(x, 2 * y) == 2 * Times(x, y)
  {
  }

  lemma TimesNat(x: nat, y: nat)
    ensures Times(x, y) >= 0
    ensures x > 0 && y > 0 ==> Times(x, y) > 0
    ensures y > 0 ==> Times(x, y) >= x
    ensures x > 0 ==> Times(x, y) >= y
  {
  }

  lemma TimesMono(x: int, y: int, d: nat)
    requires x <= y
    ensures Times(x, d) <= Times(y, d) && Times(d, x) <= Times(d, y)
    ensures x < y ==> Times(x, d) + d <= Times(y, d) && Times(d, x) + d <= Times(d, y)
  {
    hide Times;
    TimesSub(y, x, d);
    TimesNat(y - x, d);
    TimesComm(y - x, d);
  }

  lemma TimesOrder(x: int, y: int, w: nat)
    requires w > 0
    ensures x <= y <==> Times(x, w) <= Times(y, w)
    ensures x == y <==> Times(x, w) == Times(y, w)
  {
    hide Times;
    if x <= y { TimesMono(x, y, w); } else { TimesMono(y, x, w); }
    if y <= x { TimesMono(y, x, w); }
  }

  lemma {:induction false} ScaleIsTimes(x: int, k: nat)
    ensures Scale(x, k) == Times(x, Pow2(k))
  {
    hide Times;
    if k > 0 {
      ScaleIsTimes(x, k - 1);
      TimesDouble(x, Pow2(k - 1));
    } else {
      TimesOne(x);
    }
  }
}
