/** Printing integers: width-halving recursion with divisions by multiplication, and the 128-bit writer. */
module Itoa {
  import opened Arith
  import opened Decimals

  // ---------- Division by constants ----------

  datatype Divided = Divided(quotient: nat, remainder: nat)

  predicate IsWidth(n: nat) { n == 1 || n == 2 || n == 4 || n == 8 }

  /** The number of values of an unsigned type of `n` bytes. */
  function Limit(n: nat): (m: nat)
    ensures m > 0
  {
    if n == 1 then 0x100 else if n == 2 then 0x1_0000 else if n == 4 then 0x1_0000_0000 else 0x1_0000_0000_0000_0000
  }

  /** 10^n, and 10^2n */
  function Ten(n: nat): (p: nat)
    ensures p > 0
  {
    if n == 1 then 10 else if n == 2 then 100 else if n == 4 then 1_0000 else 1_0000_0000
  }

  function TenTwice(n: nat): (p: nat)
    ensures p == Ten(n) * Ten(n)
  {
    if n == 1 then 100 else if n == 2 then 1_0000 else if n == 4 then 1_0000_0000 else 1_0000_0000_0000_0000
  }

  function Narrow(n: nat, x: int): nat { x % Limit(n) }

  /** Division by 10^n by multiplication and shift, in a type of `2n` bytes. */
  function Quotient(n: nat, value: nat): nat
    requires n == 2 || n == 4 || n == 8
  {
    if n == 2 then 41943 * (value + 1) % 0x1_0000_0000 / 0x40_0000
    else if n == 4 then 3518437209 * value % 0x1_0000_0000_0000_0000 / 0x2000_0000_0000
    else 12379400392853802749 * value % 0x1_0000_0000_0000_0000_0000_0000_0000_0000 / 0x400_0000_0000_0000_0000_0000
  }

  /** `split` */
  function Split(n: nat, value: nat): Divided
    requires n == 2 || n == 4 || n == 8
  {
    var quotient := Narrow(n, Quotient(n, value));
    Divided(quotient, Narrow(n / 2, value - quotient * Ten(n)))
  }

  lemma QuotientBy2(v: nat)
    requires v < 0x1_0000
    ensures Quotient(2, v) == v / 100
  {
    var q, x := v / 100, 41943 * (v + 1);
    ModSmall(x, 0x1_0000_0000);
    DivModUnique(x, 0x40_0000, q, x - q * 0x40_0000);
  }

  lemma QuotientBy4(v: nat)
    requires v < 0x1_0000_0000
    ensures Quotient(4, v) == v / 1_0000
  {
    var q, x := v / 1_0000, 3518437209 * v;
    ModSmall(x, 0x1_0000_0000_0000_0000);
    DivModUnique(x, 0x2000_0000_0000, q, x - q * 0x2000_0000_0000);
  }

  lemma QuotientBy8(v: nat)
    requires v < 0x1_0000_0000_0000_0000
    ensures Quotient(8, v) == v / 1_0000_0000
  {
    var q, x := v / 1_0000_0000, 12379400392853802749 * v;
    ModSmall(x, 0x1_0000_0000_0000_0000_0000_0000_0000_0000);
    DivModUnique(x, 0x400_0000_0000_0000_0000_0000, q, x - q * 0x400_0000_0000_0000_0000_0000);
  }

  /** The multiplication divides exactly, for every value of the type, and nothing overflows. */
  lemma SplitDivides(n: nat, v: nat)
    requires (n == 2 || n == 4 || n == 8) && v < Limit(n)
    ensures Split(n, v) == Divided(v / Ten(n), v % Ten(n))
  {
    hide Quotient;
    if n == 2 {
      QuotientBy2(v);
    } else if n == 4 {
      QuotientBy4(v);
    } else {
      QuotientBy8(v);
    }
    SplitRest(v, Ten(n), Limit(n), Limit(n / 2));
  }

  lemma SplitRest(v: nat, p: nat, m: nat, half: nat)
    requires 0 < p <= half <= m && v < m
    ensures v / p % m == v / p && (v - v / p * p) % half == v % p
  {
    var q := v / p;
    assert v == q * p + v % p;
    MulAtLeast(p, q);
    ModSmall(q, m);
    ModSmall(v % p, half);
  }

  // ---------- The recursion on widths ----------

  /** Both halves of a number below 10^2n fit the next smaller type. */
  lemma HalvesFit(n: nat, u: nat)
    requires (n == 2 || n == 4 || n == 8) && u < TenTwice(n)
    ensures u < Limit(n) && TenTwice(n / 2) == Ten(n) <= Limit(n / 2)
    ensures var x := Split(n, u);
            && x.quotient < Ten(n) && x.remainder < Ten(n) && u == x.quotient * Ten(n) + x.remainder
            && Narrow(n / 2, x.quotient) == x.quotient && (u < Ten(n) ==> Narrow(n / 2, u) == u)
  {
    SplitDivides(n, u);
    DivBelow(u, Ten(n), Ten(n));
    ModSmall(u / Ten(n), Limit(n / 2));
    if u < Ten(n) { ModSmall(u, Limit(n / 2)); }
  }

  function OneDigit(v: nat): string
    requires v < 10
  {
    [DigitChar(v)]
  }

  function TwoDigits(v: nat): (s: string)
    requires v < 100
    ensures |s| == 2
  {
    [DigitChar(v / 10), DigitChar(v % 10)]
  }

  /** All `2n` digits, leading zeros included. */
  function Tail(n: nat, u: nat): string
    requires IsWidth(n) && u < TenTwice(n)
    decreases n
  {
    if n == 1 then TwoDigits(u)
    else
      HalvesFit(n, u);
      var x := Split(n, u);
      Tail(n / 2, Narrow(n / 2, x.quotient)) + Tail(n / 2, x.remainder)
  }

  /** The digits of a number below 10^2n, leading zeros skipped. */
  function Head(n: nat, u: nat): string
    requires IsWidth(n) && u < TenTwice(n)
    decreases n
  {
    if n == 1 then (if u < 10 then OneDigit(u) else TwoDigits(u))
    else
      HalvesFit(n, u);
      if u < Ten(n) then Head(n / 2, Narrow(n / 2, u))
      else
        var x := Split(n, u);
        Head(n / 2, Narrow(n / 2, x.quotient)) + Tail(n / 2, x.remainder)
  }

  /** Values of 10^2n and more. */
  function Large(n: nat, x: Divided): string
    requires (n == 2 || n == 4 || n == 8) && x.quotient < TenTwice(n) && x.remainder < Ten(n)
  {
    HalvesFit(n, x.quotient);
    var y := Split(n, x.quotient);
    Head(n / 2, Narrow(n / 2, y.quotient)) + Tail(n / 2, y.remainder) + Tail(n / 2, x.remainder)
  }

  /** What is written for an unsigned value of `n` bytes. */
  function Uitoa(n: nat, u: nat): string
    requires IsWidth(n) && u < Limit(n)
  {
    if n == 1 then
      if u < 10 then OneDigit(u)
      else if u < 100 then TwoDigits(u)
      else OneDigit(u / 100) + TwoDigits(u % 100)
    else
      FirstSplit(n, u);
      if u < Ten(n) then Head(n / 2, Narrow(n / 2, u))
      else
        var x := Split(n, u);
        if u < TenTwice(n) then Head(n / 2, Narrow(n / 2, x.quotient)) + Tail(n / 2, x.remainder) else Large(n, x)
  }

  /** The first division of a value of any size. */
  lemma FirstSplit(n: nat, u: nat)
    requires (n == 2 || n == 4 || n == 8) && u < Limit(n)
    ensures TenTwice(n / 2) == Ten(n)
    ensures var x := Split(n, u);
            && x.quotient < TenTwice(n) && x.remainder < Ten(n) && u == x.quotient * Ten(n) + x.remainder
            && (u < TenTwice(n) ==> x.quotient < Ten(n) && Narrow(n / 2, x.quotient) == x.quotient)
            && (u < Ten(n) ==> Narrow(n / 2, u) == u)
  {
    SplitDivides(n, u);
    if u < TenTwice(n) { HalvesFit(n, u); }
  }

  lemma TensArePowers(n: nat)
    requires IsWidth(n)
    ensures Ten(n) == Pow10(n) && TenTwice(n) == Pow10(2 * n)
  {
    assert Pow10(1) == 10 && Pow10(2) == 100;
    hide Pow10;
    Pow10Add(2, 2);
    Pow10Add(4, 4);
    Pow10Add(8, 8);
  }

  lemma TwoDigitsPadded(v: nat)
    requires v < 100
    ensures TwoDigits(v) == Padded(v, 2)
  {
    assert Padded(v / 10, 1) == Padded(v / 10 / 10, 0) + [DigitChar(v / 10 % 10)];
  }

  lemma {:induction false} TailPads(n: nat, u: nat)
    requires IsWidth(n) && u < TenTwice(n)
    ensures Tail(n, u) == Padded(u, 2 * n)
    decreases n
  {
    hide Split, Narrow, Padded, Ten, TenTwice, Limit, TwoDigits;
    if n == 1 {
      assert TenTwice(1) == 100 by { OneByte(); }
      TwoDigitsPadded(u);
    } else {
      HalvesFit(n, u);
      var x := Split(n, u);
      TailPads(n / 2, x.quotient);
      TailPads(n / 2, x.remainder);
      TensArePowers(n);
      PaddedSplit(x.quotient, x.remainder, n, n);
    }
  }

  lemma OneByte()
    ensures TenTwice(1) == 100 && Ten(1) == 10 && Limit(1) == 0x100
  {
  }

  lemma HeadOne(u: nat)
    requires u < 100
    ensures Decimal(u) == if u < 10 then OneDigit(u) else TwoDigits(u)
  {
    if u >= 10 {
      assert Digits(u / 10) == Digits(u / 10 / 10) + [DigitChar(u / 10)];
    } else {
      assert Digits(u / 10) == "";
    }
  }

  lemma {:induction false} HeadPrints(n: nat, u: nat)
    requires IsWidth(n) && u < TenTwice(n)
    ensures Head(n, u) == Decimal(u)
    decreases n
  {
    hide Split, Narrow, Padded, Decimal, Ten, TenTwice, Limit, TwoDigits, Tail, OneDigit;
    if n == 1 {
      assert TenTwice(1) == 100 by { OneByte(); }
      HeadOne(u);
    } else {
      HalvesFit(n, u);
      if u < Ten(n) {
        HeadPrints(n / 2, u);
      } else {
        var x := Split(n, u);
        HeadPrints(n / 2, x.quotient);
        TailPads(n / 2, x.remainder);
        Joined(n, x.quotient, x.remainder);
      }
    }
  }

  lemma Joined(n: nat, q: nat, r: nat)
    requires IsWidth(n) && r < Ten(n) && q * Ten(n) + r >= Ten(n)
    ensures q > 0 && Decimal(q * Ten(n) + r) == Decimal(q) + Padded(r, n)
  {
    TensArePowers(n);
    DigitsSplit(q, r, n);
    MulAtLeast(q, Ten(n));
  }

  lemma BytePrints(u: nat)
    requires u < Limit(1)
    ensures Uitoa(1, u) == Decimal(u)
  {
    if u < 100 {
      HeadOne(u);
    } else {
      HeadOne(u / 100);
      TwoDigitsPadded(u % 100);
      Pow10OfTwo();
      DigitsSplit(u / 100, u % 100, 2);
    }
  }

  lemma Pow10OfTwo()
    ensures Pow10(2) == 100
  {
    assert Pow10(1) == 10;
  }

  /** Every unsigned value is printed as its decimal notation. */
  lemma UitoaPrints(n: nat, u: nat)
    requires IsWidth(n) && u < Limit(n)
    ensures Uitoa(n, u) == Decimal(u)
  {
    hide Split, Narrow, Padded, Decimal, Head, Tail, Ten, TenTwice, Limit, Large;
    if n == 1 {
      BytePrints(u);
    } else {
      FirstSplit(n, u);
      var x := Split(n, u);
      if u < Ten(n) {
        HeadPrints(n / 2, u);
      } else if u < TenTwice(n) {
        HeadPrints(n / 2, x.quotient);
        TailPads(n / 2, x.remainder);
        Joined(n, x.quotient, x.remainder);
      } else {
        LargePrints(n, u, x);
      }
    }
  }

  lemma QuotientLarge(q: nat, p: nat, r: nat)
    requires q * p + r >= p * p && r < p
    ensures q >= p
  {
    if q < p { MulAtLeast(p - q, p); }
  }

  lemma LargePrints(n: nat, u: nat, x: Divided)
    requires (n == 2 || n == 4 || n == 8) && TenTwice(n) <= u < Limit(n)
    requires x.quotient < TenTwice(n) && x.remainder < Ten(n) && u == x.quotient * Ten(n) + x.remainder
    ensures Large(n, x) == Decimal(u)
  {
    hide Split, Narrow, Padded, Decimal, Head, Tail, Ten, TenTwice, Limit;
    QuotientLarge(x.quotient, Ten(n), x.remainder);
    HalvesFit(n, x.quotient);
    var y := Split(n, x.quotient);
    HeadPrints(n / 2, y.quotient);
    TailPads(n / 2, y.remainder);
    TailPads(n / 2, x.remainder);
    Joined(n, y.quotient, y.remainder);
    MulAtLeast(x.quotient, Ten(n));
    Joined(n, x.quotient, x.remainder);
  }

  /** What is written for a signed value: the minus sign stays only in front of a negative number. */
  function Itoa(n: nat, i: int): string
    requires IsWidth(n) && -(Limit(n) as int) <= 2 * i < Limit(n)
  {
    var word := i % Limit(n);
    var u := ((if i < 0 then 0 else 2 * word % Limit(n)) - word) % Limit(n);
    (if i < 0 then "-" else "") + Uitoa(n, u)
  }

  /** Every signed value, the least one included. */
  lemma ItoaPrints(n: nat, i: int)
    requires IsWidth(n) && -(Limit(n) as int) <= 2 * i < Limit(n)
    ensures Itoa(n, i) == Show(i)
  {
    hide Uitoa, Limit, Decimal;
    Magnitude(i, Limit(n));
    UitoaPrints(n, if i < 0 then -i else i);
    if i >= 0 { assert "" + Decimal(i) == Decimal(i); }
  }

  lemma Magnitude(i: int, m: nat)
    requires m > 0 && -(m as int) <= 2 * i < m
    ensures var word := i % m;
            ((if i < 0 then 0 else 2 * word % m) - word) % m == if i < 0 then -i else i
  {
    if i < 0 {
      ModAddMultiple(i, 1, m);
      ModSmall(i + m, m);
      ModAddMultiple(-i - m, 1, m);
      ModSmall(-i, m);
    } else {
      ModSmall(i, m);
      ModSmall(2 * i, m);
    }
  }

  // ---------- 128 bits ----------

  function AtLeast(x: nat, bound: nat): nat { if x >= bound then 1 else 0 }

  function Digits10(x: nat): nat {
    if x < 10 then 1
    else if x < 100 then 2
    else if x < 1000 then 3
    else if x < 1_000_000_000_000 then
      if x < 1_0000_0000 then
        if x < 100_0000 then
          if x < 1_0000 then 4 else 5 + AtLeast(x, 10_0000)
        else 7 + AtLeast(x, 1000_0000)
      else if x < 100_0000_0000 then 9 + AtLeast(x, 10_0000_0000)
      else 11 + AtLeast(x, 1000_0000_0000)
    else 12 + Digits10(x / 1_000_000_000_000)
  }

  lemma PowersOfTen()
    ensures Pow10(0) == 1 && Pow10(1) == 10 && Pow10(2) == 100 && Pow10(3) == 1000 && Pow10(4) == 1_0000
    ensures Pow10(5) == 10_0000 && Pow10(6) == 100_0000 && Pow10(7) == 1000_0000 && Pow10(8) == 1_0000_0000
    ensures Pow10(9) == 10_0000_0000 && Pow10(10) == 100_0000_0000 && Pow10(11) == 1000_0000_0000
    ensures Pow10(12) == 1_000_000_000_000
  {
  }

  /** The length is exact for every number. */
  lemma {:induction false} Digits10Exact(x: nat)
    ensures Digits10(x) == |Decimal(x)|
  {
    PowersOfTen();
    hide Pow10;
    if 0 < x < 1_000_000_000_000 {
      LengthIs(x, Digits10(x));
    } else if x > 0 {
      hide Digits;
      var p := 1_000_000_000_000;
      Digits10Exact(x / p);
      DigitsSplit(x / p, x % p, 12);
    }
  }

  /** The writer of unsigned 128-bit numbers: two digits at a time, from the back of the space they need. */
  method WriteUIntText(value: nat, buf: array<char>, p: nat) returns (end: nat)
    requires p + |Decimal(value)| <= buf.Length
    modifies buf
    ensures end == p + |Decimal(value)| && buf[p..end] == Decimal(value)
    ensures forall i | 0 <= i < buf.Length && !(p <= i < end) :: buf[i] == old(buf[i])
  {
    hide Decimal, TwoDigits, Digits10;
    Digits10Exact(value);
    var len := Digits10(value);
    end := p + len;
    var x, pp := value, p + len;
    while x >= 100
      invariant p <= pp <= end <= buf.Length && pp - p == |Decimal(x)| && Decimal(value) == Decimal(x) + buf[pp..end]
      invariant forall i | 0 <= i < buf.Length && !(pp <= i < end) :: buf[i] == old(buf[i])
    {
      var i := x % 100;
      ghost var written := buf[pp..end];
      TwoDigitsOff(x, written);
      x := x / 100;
      pp := pp - 2;
      OutTwoDigits(buf, pp, i);
      assert buf[pp..end] == buf[pp..pp + 2] + buf[pp + 2..end];
    }
    HeadOne(x);
    ghost var written := buf[pp..end];
    if x < 10 {
      buf[p] := DigitChar(x);
    } else {
      OutTwoDigits(buf, p, x);
    }
    assert buf[p..end] == buf[p..pp] + buf[pp..end];
  }

  method OutTwoDigits(buf: array<char>, p: nat, value: nat)
    requires p + 2 <= buf.Length && value < 100
    modifies buf
    ensures buf[p..p + 2] == TwoDigits(value)
    ensures forall i | 0 <= i < buf.Length && !(p <= i < p + 2) :: buf[i] == old(buf[i])
  {
    var text := TwoDigits(value);
    buf[p] := text[0];
    buf[p + 1] := text[1];
  }

  lemma TwoDigitsOff(x: nat, rest: string)
    requires x >= 100
    ensures Decimal(x) + rest == Decimal(x / 100) + (TwoDigits(x % 100) + rest)
    ensures |Decimal(x)| == |Decimal(x / 100)| + 2
  {
    Pow10OfTwo();
    DigitsSplit(x / 100, x % 100, 2);
    TwoDigitsPadded(x % 100);
    assert Decimal(x / 100) + TwoDigits(x % 100) + rest == Decimal(x / 100) + (TwoDigits(x % 100) + rest);
  }

  const MIN_INT128: int := -170141183460469231731687303715884105728
  const MIN_TEXT: string := "-" + ("170" + "1411" + "8346" + ("0469" + "2317" + "3168") + ("7303" + "7158" + "8410" + "5728"))

  /** The literal for the least number is its decimal notation. */
  lemma MinTextRight()
    ensures MIN_TEXT == Show(MIN_INT128) && |MIN_TEXT| == 40
  {
    hide Digits;
    MinHigh();
    MinMiddle("170" + "1411" + "8346");
    MinLow("170" + "1411" + "8346" + ("0469" + "2317" + "3168"));
  }

  lemma MinHigh()
    ensures Digits(17014118346) == "170" + "1411" + "8346"
  {
    assert Digits(1) == Digits(0) + ['1'] && Digits(17) == Digits(1) + ['7'] && Digits(170) == Digits(17) + ['0'];
    Extend(170, "170", 1411, "1411");
    Extend(1701411, "170" + "1411", 8346, "8346");
  }

  lemma MinMiddle(text: string)
    requires Digits(17014118346) == text
    ensures Digits(17014118346046923173168) == text + ("0469" + "2317" + "3168")
  {
    hide Digits;
    Extend(17014118346, text, 469, "0469");
    Extend(170141183460469, text + "0469", 2317, "2317");
    Extend(1701411834604692317, text + "0469" + "2317", 3168, "3168");
    assert text + "0469" + "2317" + "3168" == text + ("0469" + "2317" + "3168");
  }

  lemma MinLow(text: string)
    requires Digits(17014118346046923173168) == text
    ensures Digits(170141183460469231731687303715884105728) == text + ("7303" + "7158" + "8410" + "5728")
  {
    hide Digits;
    Extend(17014118346046923173168, text, 7303, "7303");
    Extend(170141183460469231731687303, text + "7303", 7158, "7158");
    Extend(1701411834604692317316873037158, text + "7303" + "7158", 8410, "8410");
    Extend(17014118346046923173168730371588410, text + "7303" + "7158" + "8410", 5728, "5728");
    assert text + "7303" + "7158" + "8410" + "5728" == text + ("7303" + "7158" + "8410" + "5728");
  }

  /** Four more digits of a literal. */
  lemma Extend(q: nat, text: string, r: nat, four: string)
    requires q > 0 && r < 1_0000 && Digits(q) == text && |four| == 4
    requires four[0] == DigitChar(r / 1000) && four[1] == DigitChar(r / 100 % 10)
    requires four[2] == DigitChar(r / 10 % 10) && four[3] == DigitChar(r % 10)
    ensures Digits(q * 1_0000 + r) == text + four
  {
    FourDigits(q, r);
    assert four == [DigitChar(r / 1000), DigitChar(r / 100 % 10), DigitChar(r / 10 % 10), DigitChar(r % 10)];
  }

  lemma FourDigits(q: nat, r: nat)
    requires q > 0 && r < 1_0000
    ensures Digits(q * 1_0000 + r) == Digits(q) + [DigitChar(r / 1000), DigitChar(r / 100 % 10), DigitChar(r / 10 % 10), DigitChar(r % 10)]
  {
    hide Pow10, Digits, Padded;
    PowersOfTen();
    DigitsSplit(q, r, 4);
    PadFour(r);
  }

  lemma PadFour(r: nat)
    requires r < 1_0000
    ensures Padded(r, 4) == [DigitChar(r / 1000), DigitChar(r / 100 % 10), DigitChar(r / 10 % 10), DigitChar(r % 10)]
  {
    hide Padded, DigitChar;
    PadStep(r, 4);
    PadStep(r / 10, 3);
    PadTwo(r / 10 / 10);
    TenTen(r);
  }

  lemma TenTen(r: nat)
    requires r < 1_0000
    ensures r / 10 / 10 == r / 100 && r / 10 / 10 / 10 == r / 1000
  {
  }

  lemma PadTwo(n: nat)
    requires n < 100
    ensures Padded(n, 2) == [DigitChar(n / 10), DigitChar(n % 10)]
  {
    TwoDigitsPadded(n);
  }

  lemma PadStep(n: nat, k: nat)
    requires k > 0
    ensures Padded(n, k) == Padded(n / 10, k - 1) + [DigitChar(n % 10)]
  {
  }

  /** The least number has no positive counterpart and is copied from its literal. */
  method WriteMin(buf: array<char>, pos: nat) returns (end: nat)
    requires pos + |Show(MIN_INT128)| <= buf.Length
    modifies buf
    ensures end == pos + |Show(MIN_INT128)| && buf[pos..end] == Show(MIN_INT128)
    ensures forall i | 0 <= i < buf.Length && !(pos <= i < end) :: buf[i] == old(buf[i])
  {
    hide Show;
    MinTextRight();
    var text := MIN_TEXT;
    end := pos + 40;
    forall i | 0 <= i < 40 { buf[pos + i] := text[i]; }
    assert buf[pos..end] == text;
  }

  /** The writer of signed 128-bit numbers. */
  method WriteSIntText(x: int, buf: array<char>, pos: nat) returns (end: nat)
    requires MIN_INT128 <= x < -MIN_INT128 && pos + |Show(x)| <= buf.Length
    modifies buf
    ensures end == pos + |Show(x)| && buf[pos..end] == Show(x)
    ensures forall i | 0 <= i < buf.Length && !(pos <= i < end) :: buf[i] == old(buf[i])
  {
    hide Digits, Decimal;
    if x == MIN_INT128 {
      end := WriteMin(buf, pos);
      return;
    }
    if x < 0 {
      buf[pos] := '-';
      end := WriteUIntText(-x, buf, pos + 1);
      assert buf[pos..end] == ['-'] + buf[pos + 1..end];
    } else {
      end := WriteUIntText(x, buf, pos);
    }
  }
}
