/** `__u32toa` and `__u64toa`: decimal printing two digits at a time. */
module CharConv {

  function Digit(d: nat): char
    requires d < 10
  {
    '0' + d as char
  }

  /** The canonical decimal numeral. */
  function Decimal(n: nat): string {
    if n < 10 then [Digit(n)] else Decimal(n / 10) + [Digit(n % 10)]
  }

  /** Exactly k digits, with leading zeros. */
  function Digits(n: nat, k: nat): string {
    if k == 0 then [] else Digits(n / 10, k - 1) + [Digit(n % 10)]
  }

  function Pow10(k: nat): nat { if k == 0 then 1 else 10 * Pow10(k - 1) }

  // ----- What the numeral means -----

  function IsDigit(c: char): bool { '0' <= c <= '9' }

  function DigitValue(c: char): nat
    requires IsDigit(c)
  {
    (c - '0') as nat
  }

  function Parse(s: string): nat
    requires forall i | 0 <= i < |s| :: IsDigit(s[i])
  {
    if |s| == 0 then 0 else 10 * Parse(s[..|s| - 1]) + DigitValue(s[|s| - 1])
  }

  /** Digits only, at least one, and no leading zero except in "0". */
  ghost predicate IsNumeral(s: string) {
    && |s| > 0
    && (forall i | 0 <= i < |s| :: IsDigit(s[i]))
    && (s[0] == '0' ==> |s| == 1)
  }

  /** Printing and parsing are inverse ... */
  lemma {:induction false} ParseDecimal(n: nat)
    ensures IsNumeral(Decimal(n)) && Parse(Decimal(n)) == n
    ensures n > 0 ==> Decimal(n)[0] != '0'
  {
    if n >= 10 {
      var s := Decimal(n / 10);
      ParseDecimal(n / 10);
      assert (s + [Digit(n % 10)])[..|s|] == s;
    }
  }

  /** ... in both directions: a number has one numeral. */
  lemma {:induction false} DecimalParse(s: string)
    requires IsNumeral(s)
    ensures Decimal(Parse(s)) == s
  {
    var t := s[..|s| - 1];
    if |s| == 1 {
      assert t == [];
    } else {
      assert t[0] == s[0];
      DecimalParse(t);
      ParsePositive(t);
      assert s == t + [s[|s| - 1]];
    }
  }

  lemma {:induction false} ParsePositive(s: string)
    requires |s| > 0 && s[0] != '0' && forall i | 0 <= i < |s| :: IsDigit(s[i])
    ensures Parse(s) > 0
  {
    if |s| > 1 { ParsePositive(s[..|s| - 1]); }
  }

  lemma {:induction false} DecimalLength(n: nat, k: nat)
    requires k > 0 && n < Pow10(k)
    ensures |Decimal(n)| <= k
  {
    if n >= 10 {
      DecimalLength(n / 10, k - 1);
    }
  }

  /** A numeral is a shorter numeral followed by digits. */
  lemma {:induction false} SplitDecimal(a: nat, b: nat, k: nat)
    requires a > 0 && b < Pow10(k)
    ensures Decimal(a * Pow10(k) + b) == Decimal(a) + Digits(b, k)
  {
    if k == 0 {
      assert Decimal(a) + [] == Decimal(a);
    } else {
      var p := Pow10(k - 1);
      TenTimes(a, p, b);
      assert a * p >= 1;
      SplitDecimal(a, b / 10, k - 1);
    }
  }

  // ----- The table of digit pairs -----

  /** `cDigitsLut`, five pairs to a row. */
  function LutRow(row: nat): string {
    match row
    case 0 => "0001020304"
    case 1 => "0506070809"
    case 2 => "1011121314"
    case 3 => "1516171819"
    case 4 => "2021222324"
    case 5 => "2526272829"
    case 6 => "3031323334"
    case 7 => "3536373839"
    case 8 => "4041424344"
    case 9 => "4546474849"
    case 10 => "5051525354"
    case 11 => "5556575859"
    case 12 => "6061626364"
    case 13 => "6566676869"
    case 14 => "7071727374"
    case 15 => "7576777879"
    case 16 => "8081828384"
    case 17 => "8586878889"
    case 18 => "9091929394"
    case _ => "9596979899"
  }

  lemma LutLength(row: nat)
    ensures |LutRow(row)| == 10
  {
  }

  function Lut(k: nat): char
    requires k < 200
  {
    LutLength(k / 10);
    LutRow(k / 10)[k % 10]
  }

  ghost predicate PairIs(text: string, u: nat, i: nat)
    requires u < 5 && i < 100
  {
    |text| == 10 && text[2 * u] == Digit(i / 10) && text[2 * u + 1] == Digit(i % 10)
  }

  /** The five pairs of a row, one by one. */
  ghost predicate RowHolds(row: nat)
    requires row < 20
  {
    var text, i := LutRow(row), 5 * row;
    PairIs(text, 0, i) && PairIs(text, 1, i + 1) && PairIs(text, 2, i + 2)
    && PairIs(text, 3, i + 3) && PairIs(text, 4, i + 4)
  }

  lemma Row0() ensures RowHolds(0) {}
  lemma Row1() ensures RowHolds(1) {}
  lemma Row2() ensures RowHolds(2) {}
  lemma Row3() ensures RowHolds(3) {}
  lemma Row4() ensures RowHolds(4) {}
  lemma Row5() ensures RowHolds(5) {}
  lemma Row6() ensures RowHolds(6) {}
  lemma Row7() ensures RowHolds(7) {}
  lemma Row8() ensures RowHolds(8) {}
  lemma Row9() ensures RowHolds(9) {}
  lemma Row10() ensures RowHolds(10) {}
  lemma Row11() ensures RowHolds(11) {}
  lemma Row12() ensures RowHolds(12) {}
  lemma Row13() ensures RowHolds(13) {}
  lemma Row14() ensures RowHolds(14) {}
  lemma Row15() ensures RowHolds(15) {}
  lemma Row16() ensures RowHolds(16) {}
  lemma Row17() ensures RowHolds(17) {}
  lemma Row18() ensures RowHolds(18) {}
  lemma Row19() ensures RowHolds(19) {}

  /** Entry i of the table is i in two digits. */
  lemma LutPair(i: nat)
    requires i < 100
    ensures [Lut(2 * i), Lut(2 * i + 1)] == Digits(i, 2)
  {
    hide LutRow, RowHolds;
    AllRows(i / 5);
    RowPair(i / 5, i % 5);
    assert 2 * i / 10 == i / 5 && (2 * i + 1) / 10 == i / 5;
    assert Digits(i, 2) == Digits(i / 10, 1) + [Digit(i % 10)];
    assert Digits(i / 10, 1) == Digits(i / 100, 0) + [Digit(i / 10 % 10)];
  }

  lemma AllRows(row: nat)
    requires row < 20
    ensures RowHolds(row)
  {
    hide RowHolds;
    if row < 10 {
      Row0();
      Row1();
      Row2();
      Row3();
      Row4();
      Row5();
      Row6();
      Row7();
      Row8();
      Row9();
    } else {
      Row10();
      Row11();
      Row12();
      Row13();
      Row14();
      Row15();
      Row16();
      Row17();
      Row18();
      Row19();
    }
  }

  lemma RowPair(row: nat, u: nat)
    requires row < 20 && u < 5 && RowHolds(row)
    ensures PairIs(LutRow(row), u, 5 * row + u)
  {
    hide LutRow, PairIs;
  }

  // ----- Writing -----

  /** The buffer after `text` has been written at `pos`. */
  ghost predicate Wrote(old_: seq<char>, new_: seq<char>, pos: nat, text: string) {
    && |new_| == |old_| && pos + |text| <= |old_|
    && new_ == old_[..pos] + text + old_[pos + |text|..]
  }

  /** Writing one text after another writes their concatenation. */
  lemma WroteBoth(a: seq<char>, b: seq<char>, c: seq<char>, pos: nat, s: string, t: string)
    requires Wrote(a, b, pos, s) && Wrote(b, c, pos + |s|, t)
    ensures Wrote(a, c, pos, s + t)
  {
    assert b[..pos + |s|] == a[..pos] + s;
    assert b[pos + |s| + |t|..] == a[pos + |s| + |t|..];
  }

  method Append1(buffer: array<char>, pos: nat, i: nat) returns (end: nat)
    requires i < 10 && pos + 1 <= buffer.Length
    modifies buffer
    ensures end == pos + 1 && Wrote(old(buffer[..]), buffer[..], pos, Digits(i, 1))
  {
    assert Digits(i, 1) == Digits(i / 10, 0) + [Digit(i % 10)];
    buffer[pos] := '0' + i as char;
    end := pos + 1;
  }

  method Append2(buffer: array<char>, pos: nat, i: nat) returns (end: nat)
    requires i < 100 && pos + 2 <= buffer.Length
    modifies buffer
    ensures end == pos + 2 && Wrote(old(buffer[..]), buffer[..], pos, Digits(i, 2))
  {
    hide Digits, Lut;
    LutPair(i);
    ghost var start := buffer[..];
    buffer[pos] := Lut(2 * i);
    buffer[pos + 1] := Lut(2 * i + 1);
    end := pos + 2;
    assert buffer[..] == start[..pos] + [Lut(2 * i), Lut(2 * i + 1)] + start[pos + 2..];
  }

  /** The digits of a number are the digits of its parts. */
  lemma {:induction false} DigitsSplit(a: nat, b: nat, j: nat, k: nat)
    requires b < Pow10(k)
    ensures Digits(a * Pow10(k) + b, j + k) == Digits(a, j) + Digits(b, k)
  {
    if k == 0 {
      assert Digits(a, j) + [] == Digits(a, j);
    } else {
      var p := Pow10(k - 1);
      TenTimes(a, p, b);
      DigitsSplit(a, b / 10, j, k - 1);
    }
  }

  lemma TenTimes(a: nat, p: nat, b: nat)
    ensures a * (10 * p) + b >= 0 && a * p + b / 10 >= 0
    ensures (a * (10 * p) + b) / 10 == a * p + b / 10
    ensures (a * (10 * p) + b) % 10 == b % 10
  {
    var m := a * p;
    assert a * (10 * p) == 10 * m;
    assert m >= 0;
  }

  method Append3(buffer: array<char>, pos: nat, i: nat) returns (end: nat)
    requires i < 1000 && pos + 3 <= buffer.Length
    modifies buffer
    ensures end == pos + 3 && Wrote(old(buffer[..]), buffer[..], pos, Digits(i, 3))
  {
    hide Digits;
    Powers();
    DigitsLength(i / 100, 1);
    DigitsLength(i % 100, 2);
    DigitsSplit(i / 100, i % 100, 1, 2);
    ghost var start := buffer[..];
    end := Append1(buffer, pos, i / 100);
    ghost var middle := buffer[..];
    end := Append2(buffer, end, i % 100);
    WroteBoth(start, middle, buffer[..], pos, Digits(i / 100, 1), Digits(i % 100, 2));
  }

  method Append4(buffer: array<char>, pos: nat, i: nat) returns (end: nat)
    requires i < 10000 && pos + 4 <= buffer.Length
    modifies buffer
    ensures end == pos + 4 && Wrote(old(buffer[..]), buffer[..], pos, Digits(i, 4))
  {
    hide Digits;
    Powers();
    DigitsLength(i / 100, 2);
    DigitsLength(i % 100, 2);
    DigitsSplit(i / 100, i % 100, 2, 2);
    ghost var start := buffer[..];
    end := Append2(buffer, pos, i / 100);
    ghost var middle := buffer[..];
    end := Append2(buffer, end, i % 100);
    WroteBoth(start, middle, buffer[..], pos, Digits(i / 100, 2), Digits(i % 100, 2));
  }

  lemma Powers()
    ensures Pow10(0) == 1 && Pow10(1) == 10 && Pow10(2) == 100 && Pow10(3) == 1000 && Pow10(4) == 10000
  {
  }

  /** A number with a nonzero leading digit is its own numeral. */
  lemma {:induction false} DigitsAreDecimal(n: nat, k: nat)
    requires k > 0 && n < Pow10(k) && (k > 1 ==> n >= Pow10(k - 1))
    ensures Digits(n, k) == Decimal(n)
  {
    if k > 1 {
      DigitsAreDecimal(n / 10, k - 1);
    } else {
      assert Digits(n / 10, 0) == [];
    }
  }

  /** Numbers below 10000: one to four digits. */
  method AppendShort(value: nat, buffer: array<char>, pos: nat) returns (end: nat)
    requires value < 10000 && pos + |Decimal(value)| <= buffer.Length
    modifies buffer
    ensures end == pos + |Decimal(value)| && Wrote(old(buffer[..]), buffer[..], pos, Decimal(value))
  {
    hide Digits, Decimal;
    Powers();
    if value < 100 {
      if value < 10 {
        DigitsAreDecimal(value, 1);
        DigitsLength(value, 1);
        end := Append1(buffer, pos, value);
      } else {
        DigitsAreDecimal(value, 2);
        DigitsLength(value, 2);
        end := Append2(buffer, pos, value);
      }
    } else {
      if value < 1000 {
        DigitsAreDecimal(value, 3);
        DigitsLength(value, 3);
        end := Append3(buffer, pos, value);
      } else {
        DigitsAreDecimal(value, 4);
        DigitsLength(value, 4);
        end := Append4(buffer, pos, value);
      }
    }
  }

  lemma {:induction false} DigitsLength(n: nat, k: nat)
    ensures |Digits(n, k)| == k
  {
    if k > 0 { DigitsLength(n / 10, k - 1); }
  }

  /** The last four digits, after the numeral of what is above them. */
  method AppendGroup(ghost high: nat, low: nat, buffer: array<char>, pos: nat, ghost start: seq<char>, ghost pos0: nat)
    returns (end: nat)
    requires high > 0 && low < 10000
    requires pos == pos0 + |Decimal(high)| && Wrote(start, buffer[..], pos0, Decimal(high))
    requires pos0 + |Decimal(high * 10000 + low)| <= buffer.Length
    modifies buffer
    ensures Decimal(high * 10000 + low) == Decimal(high) + Digits(low, 4)
    ensures end == pos0 + |Decimal(high * 10000 + low)|
    ensures Wrote(start, buffer[..], pos0, Decimal(high * 10000 + low))
  {
    hide Digits, Decimal;
    Powers();
    SplitDecimal(high, low, 4);
    DigitsLength(low, 4);
    ghost var middle := buffer[..];
    end := Append4(buffer, pos, low);
    WroteBoth(start, middle, buffer[..], pos0, Decimal(high), Digits(low, 4));
  }

  /** Room for the whole numeral is room for the numeral of its upper part. */
  lemma UpperPart(high: nat, low: nat)
    requires high > 0 && low < 10000
    ensures |Decimal(high * 10000 + low)| == |Decimal(high)| + 4
  {
    hide Digits, Decimal;
    Powers();
    SplitDecimal(high, low, 4);
    DigitsLength(low, 4);
  }

  /** Numbers below 10^8. */
  method AppendBelow8(value: nat, buffer: array<char>, pos: nat) returns (end: nat)
    requires value < 100000000 && pos + |Decimal(value)| <= buffer.Length
    modifies buffer
    ensures end == pos + |Decimal(value)| && Wrote(old(buffer[..]), buffer[..], pos, Decimal(value))
  {
    hide Digits, Decimal;
    ghost var start := buffer[..];
    if value < 10000 {
      end := AppendShort(value, buffer, pos);
    } else {
      var b, c := value / 10000, value % 10000;
      UpperPart(b, c);
      end := AppendShort(b, buffer, pos);
      end := AppendGroup(b, c, buffer, end, start, pos);
    }
  }

  method U32ToA(value: nat, buffer: array<char>, pos: nat) returns (end: nat)
    requires value < 0x1_0000_0000 && pos + |Decimal(value)| <= buffer.Length
    modifies buffer
    ensures end == pos + |Decimal(value)| && |Decimal(value)| <= 10
    ensures Wrote(old(buffer[..]), buffer[..], pos, Decimal(value))
  {
    hide Digits, Decimal;
    ghost var start := buffer[..];
    FitsTen(value);
    if value < 100000000 {
      end := AppendBelow8(value, buffer, pos);
    } else {
      var a, v := value / 100000000, value % 100000000;
      ghost var ab := a * 10000 + v / 10000;
      assert value == ab * 10000 + v % 10000;
      UpperPart(ab, v % 10000);
      UpperPart(a, v / 10000);
      end := AppendShort(a, buffer, pos);
      end := AppendGroup(a, v / 10000, buffer, end, start, pos);
      end := AppendGroup(ab, v % 10000, buffer, end, start, pos);
    }
  }

  lemma FitsTen(value: nat)
    requires value < 0x1_0000_0000
    ensures |Decimal(value)| <= 10
  {
    hide Decimal;
    assert Pow10(5) == 100000;
    DecimalLength(value, 10);
  }

  const E8: nat := 100000000
  const E12: nat := 1000000000000
  const E16: nat := 10000000000000000

  /** What the 64-bit printer writes: from 10^8 up to 10^12 its leading part is a zero digit
      followed by four digits, so that all of these numbers come out with 13 digits. */
  function Text64(n: nat): string {
    if E8 <= n < E12 then Digits(n, 13) else Decimal(n)
  }

  /** The text is the canonical numeral exactly outside that range ... */
  lemma Text64Canonical(n: nat)
    ensures IsNumeral(Text64(n)) <==> !(100000000 <= n < 1000000000000)
    ensures Text64(n) == Decimal(n) <==> !(100000000 <= n < 1000000000000)
  {
    hide Digits;
    ParseDecimal(n);
    if E8 <= n < E12 {
      DigitsLength(n, 13);
      LeadingZero(n);
    }
  }

  /** ... for instance not for 10^8, which is printed with leading zeros ... */
  lemma Text64Example()
    ensures Text64(E8) == "0000100000000"
  {
    Powers64();
    DigitsSplit(1, 0, 5, 8);
    assert Digits(1, 5) == "00001";
    assert Digits(0, 8) == "00000000";
  }

  /** ... but it always denotes the number. */
  lemma Text64Parse(n: nat)
    ensures forall i | 0 <= i < |Text64(n)| :: IsDigit(Text64(n)[i])
    ensures Parse(Text64(n)) == n
  {
    hide Digits, Decimal, Parse;
    ParseDecimal(n);
    Powers64();
    if E8 <= n < E12 { ParseDigits(n, 13); }
  }

  lemma {:induction false} ParseDigits(n: nat, k: nat)
    requires n < Pow10(k)
    ensures forall i | 0 <= i < |Digits(n, k)| :: IsDigit(Digits(n, k)[i])
    ensures Parse(Digits(n, k)) == n
  {
    if k > 0 {
      var s := Digits(n / 10, k - 1);
      ParseDigits(n / 10, k - 1);
      assert (s + [Digit(n % 10)])[..|s|] == s;
    }
  }

  /** Thirteen digits are one too many below 10^12. */
  lemma LeadingZero(n: nat)
    requires n < E12
    ensures |Digits(n, 13)| == 13 && Digits(n, 13)[0] == '0'
  {
    hide Digits;
    Powers64();
    DigitsSplit(0, n, 1, 12);
    DigitsLength(n, 12);
    ZeroDigit();
  }

  lemma ZeroDigit()
    ensures Digits(0, 1) == "0"
  {
    assert Digits(0, 1) == Digits(0, 0) + ['0'];
  }

  lemma Powers64()
    ensures Pow10(4) == 10000 && Pow10(8) == E8 && Pow10(12) == E12 && Pow10(13) == 10 * E12
    ensures Pow10(20) == 100000000 * E12
  {
    assert Pow10(5) == 100000;
    assert Pow10(9) == 1000000000;
    assert Pow10(13) == 10 * E12;
    assert Pow10(17) == 100000 * E12;
  }

  lemma FitsTwenty(value: nat)
    requires value < 0x1_0000_0000_0000_0000
    ensures |Text64(value)| <= 20
  {
    hide Decimal, Digits;
    Powers64();
    DecimalLength(value, 20);
    DigitsLength(value, 13);
  }

  /** The upper part of the numbers from 10^8 to 10^16: its fifth digit from the right is
      written even when it is a leading zero. */
  method AppendUpper(v0: nat, buffer: array<char>, pos: nat) returns (end: nat)
    requires 0 < v0 < E8
    requires pos + (if v0 < 10000 then 5 else |Decimal(v0)|) <= buffer.Length
    modifies buffer
    ensures var text := if v0 < 10000 then Digits(v0, 5) else Decimal(v0);
      end == pos + |text| && Wrote(old(buffer[..]), buffer[..], pos, text)
  {
    hide Digits, Decimal;
    ghost var start := buffer[..];
    Powers();
    var b0, c0 := v0 / 10000, v0 % 10000;
    DigitsLength(c0, 4);
    if b0 == 0 {
      DigitsSplit(0, v0, 1, 4);
      DigitsLength(v0, 5);
      DigitsLength(0, 1);
      end := Append1(buffer, pos, b0);
      ghost var middle := buffer[..];
      end := Append4(buffer, end, c0);
      WroteBoth(start, middle, buffer[..], pos, Digits(0, 1), Digits(c0, 4));
    } else {
      UpperPart(b0, c0);
      end := AppendShort(b0, buffer, pos);
      end := AppendGroup(b0, c0, buffer, end, start, pos);
    }
  }

  /** Numbers from 10^8 up to 10^16. */
  method AppendBelow16(value: nat, buffer: array<char>, pos: nat) returns (end: nat)
    requires E8 <= value < E16 && pos + |Text64(value)| <= buffer.Length
    modifies buffer
    ensures end == pos + |Text64(value)| && Wrote(old(buffer[..]), buffer[..], pos, Text64(value))
  {
    hide Digits, Decimal;
    ghost var start := buffer[..];
    var v0, v1 := value / E8, value % E8;
    DigitsLength(v1 / 10000, 4);
    DigitsLength(v1 % 10000, 4);
    ghost var upper := if v0 < 10000 then Digits(v0, 5) else Decimal(v0);
    ThreeParts(v0, v1);
    DigitsLength(v0, 5);
    end := AppendUpper(v0, buffer, pos);
    ghost var first := buffer[..];
    end := Append4(buffer, end, v1 / 10000);
    ghost var second := buffer[..];
    end := Append4(buffer, end, v1 % 10000);
    WroteBoth(start, first, second, pos, upper, Digits(v1 / 10000, 4));
    WroteBoth(start, second, buffer[..], pos, upper + Digits(v1 / 10000, 4), Digits(v1 % 10000, 4));
  }

  lemma ThreeParts(v0: nat, v1: nat)
    requires 0 < v0 < E8 && v1 < E8
    ensures Text64(v0 * E8 + v1)
         == (if v0 < 10000 then Digits(v0, 5) else Decimal(v0)) + Digits(v1 / 10000, 4) + Digits(v1 % 10000, 4)
  {
    hide Digits, Decimal;
    Powers();
    var top := v0 * 10000 + v1 / 10000;
    assert v0 * E8 + v1 == top * 10000 + v1 % 10000;
    if v0 < 10000 {
      DigitsSplit(top, v1 % 10000, 9, 4);
      DigitsSplit(v0, v1 / 10000, 5, 4);
    } else {
      SplitDecimal(top, v1 % 10000, 4);
      SplitDecimal(v0, v1 / 10000, 4);
    }
  }

  /** Numbers from 10^16 up to 2^64. */
  method AppendAbove16(value: nat, buffer: array<char>, pos: nat) returns (end: nat)
    requires E16 <= value < 0x1_0000_0000_0000_0000 && pos + |Decimal(value)| <= buffer.Length
    modifies buffer
    ensures end == pos + |Decimal(value)| && Wrote(old(buffer[..]), buffer[..], pos, Decimal(value))
  {
    hide Digits, Decimal, Wrote;
    ghost var start := buffer[..];
    var a, rest := value / E16, value % E16;
    var v0, v1 := rest / E8, rest % E8;
    ghost var t1 := a * 10000 + v0 / 10000;
    ghost var t2 := t1 * 10000 + v0 % 10000;
    ghost var t3 := t2 * 10000 + v1 / 10000;
    assert value == t3 * 10000 + v1 % 10000;
    UpperPart(t3, v1 % 10000);
    UpperPart(t2, v1 / 10000);
    UpperPart(t1, v0 % 10000);
    UpperPart(a, v0 / 10000);
    end := AppendShort(a, buffer, pos);
    end := AppendGroup(a, v0 / 10000, buffer, end, start, pos);
    end := AppendGroup(t1, v0 % 10000, buffer, end, start, pos);
    end := AppendGroup(t2, v1 / 10000, buffer, end, start, pos);
    end := AppendGroup(t3, v1 % 10000, buffer, end, start, pos);
  }

  method U64ToA(value: nat, buffer: array<char>, pos: nat) returns (end: nat)
    requires value < 0x1_0000_0000_0000_0000 && pos + |Text64(value)| <= buffer.Length
    modifies buffer
    ensures end == pos + |Text64(value)| && |Text64(value)| <= 20
    ensures Wrote(old(buffer[..]), buffer[..], pos, Text64(value))
  {
    hide Digits, Decimal, Wrote;
    FitsTwenty(value);
    if value < E8 {
      end := AppendBelow8(value, buffer, pos);
    } else if value < E16 {
      end := AppendBelow16(value, buffer, pos);
    } else {
      end := AppendAbove16(value, buffer, pos);
    }
  }
}
