/** Wide integers as text: parsing and printing. */
module WideText {
  import opened Arith
  import opened Decimals
  import opened WideWords
  import opened WideAdd
  import opened WideMul
  import opened WideDiv

  datatype Option<T> = None | Some(value: T)

  // ---------- What a text denotes ----------

  predicate IsDigit(hex: bool, c: char) {
    '0' <= c <= '9' || (hex && ('a' <= c <= 'f' || 'A' <= c <= 'F'))
  }

  function DigitValue(hex: bool, c: char): (d: nat)
    requires IsDigit(hex, c)
    ensures d < Radix(hex)
  {
    if '0' <= c <= '9' then (c - '0') as int
    else if 'a' <= c <= 'f' then (c - 'a') as int + 10
    else (c - 'A') as int + 10
  }

  function Radix(hex: bool): nat { if hex then 16 else 10 }

  ghost predicate AllDigits(hex: bool, s: string) {
    forall i | 0 <= i < |s| :: IsDigit(hex, s[i])
  }

  ghost function Numeral(hex: bool, s: string): nat
    requires AllDigits(hex, s)
  {
    if s == "" then 0
    else Numeral(hex, s[..|s| - 1]) * Radix(hex) + DigitValue(hex, s[|s| - 1])
  }

  predicate HasMinus(signed: bool, s: string) {
    signed && |s| > 0 && s[0] == '-'
  }

  predicate HasPrefix(s: string) {
    |s| >= 2 && s[0] == '0' && (s[1] == 'x' || s[1] == 'X')
  }

  /** The integer a text denotes: decimal, or hexadecimal after `0x`; no digits at all denote zero. */
  ghost function Denotes(signed: bool, s: string): Option<int> {
    var t := if HasMinus(signed, s) then s[1..] else s;
    var digits := if HasPrefix(t) then t[2..] else t;
    if !AllDigits(HasPrefix(t), digits) then None
    else Some(if HasMinus(signed, s) then 0 - Numeral(HasPrefix(t), digits) else Numeral(HasPrefix(t), digits))
  }

  /** The digits and what they stand for. */
  lemma DigitTable(hex: bool, c: char)
    ensures IsDigit(false, c) <==> c in {'0', '1', '2', '3', '4', '5', '6', '7', '8', '9'}
    ensures IsDigit(true, c) <==> IsDigit(false, c) || c in {'a', 'b', 'c', 'd', 'e', 'f', 'A', 'B', 'C', 'D', 'E', 'F'}
    ensures forall i | 0 <= i < 10 :: DigitValue(hex, "0123456789"[i]) == i
    ensures forall i | 0 <= i < 6 :: DigitValue(true, "abcdef"[i]) == 10 + i && DigitValue(true, "ABCDEF"[i]) == 10 + i
  {
  }

  /** A digit more is worth ten or sixteen times as much. */
  lemma NumeralGrows(hex: bool, s: string, c: char)
    requires AllDigits(hex, s) && IsDigit(hex, c)
    ensures Numeral(hex, "") == 0 && AllDigits(hex, s + [c])
    ensures Numeral(hex, s + [c]) == Numeral(hex, s) * (if hex then 16 else 10) + DigitValue(hex, c)
  {
    assert (s + [c])[..|s|] == s;
  }

  /** The texts that denote a number: a sign, if the number may have one, perhaps `0x` or `0X`, and digits. */
  ghost predicate Spells(signed: bool, s: string, minus: bool, prefix: string, digits: string) {
    && s == (if minus then "-" else "") + prefix + digits && (minus ==> signed)
    && (prefix == "" || prefix == "0x" || prefix == "0X") && AllDigits(prefix != "", digits)
  }

  /** Such a text denotes the number that its digits spell. */
  lemma SpellingDenotes(signed: bool, s: string, minus: bool, prefix: string, digits: string)
    requires Spells(signed, s, minus, prefix, digits)
    ensures Denotes(signed, s) == Some(if minus then 0 - Numeral(prefix != "", digits) else Numeral(prefix != "", digits))
  {
    hide Numeral;
    var t := prefix + digits;
    assert s == if minus then "-" + t else t;
    if !minus && t != "" { assert s[0] == t[0] && (t[0] == '0' || IsDigit(false, t[0])); }
    assert (if minus then s[1..] else s) == t;
    if prefix == "" {
      assert t == digits;
      if |digits| >= 2 { assert IsDigit(false, digits[1]); }
    } else {
      assert t[0] == '0' && t[2..] == digits;
    }
  }

  /** No other text denotes anything. */
  lemma DenotesSpelled(signed: bool, s: string) returns (minus: bool, prefix: string, digits: string)
    requires Denotes(signed, s).Some?
    ensures Spells(signed, s, minus, prefix, digits)
  {
    hide Numeral, AllDigits;
    minus := HasMinus(signed, s);
    var sign, t := if minus then "-" else "", if minus then s[1..] else s;
    prefix, digits := SplitPrefix(t);
    assert s == sign + t;
    assert sign + prefix + digits == sign + (prefix + digits);
  }

  lemma SplitPrefix(t: string) returns (prefix: string, digits: string)
    ensures t == prefix + digits && (prefix == "" || prefix == "0x" || prefix == "0X")
    ensures prefix != "" <==> HasPrefix(t)
    ensures digits == if HasPrefix(t) then t[2..] else t
  {
    if HasPrefix(t) {
      prefix, digits := ['0', t[1]], t[2..];
    } else {
      prefix, digits := "", t;
    }
  }

  // ---------- Parsing ----------

  datatype Parsed = InvalidChar | Number(items: seq<nat>)

  lemma HornerStep(v: int, exact: int, product: int, sum: int, radix: int, digit: int, m: int)
    requires m > 0 && v == exact % m && product == v * radix % m && sum == (product + digit) % m
    ensures sum == (exact * radix + digit) % m
  {
    CongMod(exact, m);
    CongMul(v, exact, radix, radix, m);
    CongMod(v * radix, m);
    CongAdd(product, exact * radix, digit, digit, m);
  }

  method ParseDigits(count: nat, hex: bool, s: string) returns (r: Parsed)
    requires count > 0
    ensures r.InvalidChar? <==> !AllDigits(hex, s)
    ensures r.Number? ==> Wide(r.items) && |r.items| == count && Value(r.items) == Numeral(hex, s) % Size(count)
  {
    hide Value, Size, Numeral, DigitValue;
    var res := Resize([0], count);
    EmptyNumeral(hex, count);
    for i := 0 to |s|
      invariant Wide(res) && |res| == count && AllDigits(hex, s[..i])
      invariant Value(res) == Numeral(hex, s[..i]) % Size(count)
    {
      if !IsDigit(hex, s[i]) { return InvalidChar; }
      var product := MultiplyWord(res, Radix(hex));
      var digit := DigitValue(hex, s[i]);
      var sum := Plus(product, [digit]);
      NumeralStep(hex, s, i);
      HornerStep(Value(res), Numeral(hex, s[..i]), Value(product), Value(sum), Radix(hex), digit, Size(count));
      res := sum;
    }
    assert s[..|s|] == s;
    r := Number(res);
  }

  lemma EmptyNumeral(hex: bool, count: nat)
    requires count > 0
    ensures Wide(Resize([0], count)) && Value(Resize([0], count)) == Numeral(hex, "") % Size(count)
  {
    One();
    Reading([0], count);
    ModSmall(0, Size(count));
  }

  lemma NumeralStep(hex: bool, s: string, i: nat)
    requires i < |s| && AllDigits(hex, s[..i]) && IsDigit(hex, s[i])
    ensures AllDigits(hex, s[..i + 1])
    ensures Numeral(hex, s[..i + 1]) == Numeral(hex, s[..i]) * Radix(hex) + DigitValue(hex, s[i])
    ensures Value([DigitValue(hex, s[i])]) == DigitValue(hex, s[i])
  {
    assert s[..i + 1][..i] == s[..i];
    assert Value([]) == 0;
  }

  /** `from_str` */
  method FromStr(count: nat, signed: bool, s: string) returns (r: Parsed)
    requires count > 0
    ensures r.InvalidChar? <==> Denotes(signed, s).None?
    ensures r.Number? ==> Wide(r.items) && |r.items| == count && Value(r.items) == Denotes(signed, s).value % Size(count)
  {
    hide Value, Size, Numeral;
    var isNeg := HasMinus(signed, s);
    var t := if isNeg then s[1..] else s;
    if HasPrefix(t) {
      r := ParseDigits(count, true, t[2..]);
    } else {
      r := ParseDigits(count, false, t);
    }
    if r.Number? && isNeg {
      var negated := UnaryMinus(r.items);
      NegateMod(Value(r.items), Numeral(HasPrefix(t), if HasPrefix(t) then t[2..] else t), Size(count));
      r := Number(negated);
    }
  }

  lemma NegateMod(v: int, x: int, m: int)
    requires m > 0 && v == x % m
    ensures (0 - v) % m == (0 - x) % m
  {
    CongMod(x, m);
    CongAdd(0, 0, v, x, m);
  }

  // ---------- Printing ----------

  ghost function IntegerOf(signed: bool, a: seq<nat>): int {
    if signed then Signed(a) else Value(a)
  }

  /** The loop of `to_string`: peels digits off the low end. */
  method Peel(n: seq<nat>) returns (res: string)
    requires Wide(n) && |n| > 0
    ensures res == Digits(Value(n))
  {
    hide Value, Size, Digits;
    One();
    var t := n;
    res := "";
    NoDigits(Value(n));
    var done := Equal(t, [0]);
    while !done
      invariant Wide(t) && |t| == |n| && Digits(Value(n)) == Digits(Value(t)) + res
      invariant done <==> Value(t) == 0
      decreases Value(t)
    {
      var digit: nat, rest := ByTen(t);
      NextDigit(Value(t), digit, Value(rest), res);
      res := [DigitChar(digit)] + res;
      t := rest;
      done := Equal(t, [0]);
    }
  }

  /** `to_string` */
  method ToString(n: seq<nat>, signed: bool) returns (res: string)
    requires Wide(n) && |n| > 0
    ensures res == Show(IntegerOf(signed, n))
  {
    hide Value, Size, Digits, IntegerOf;
    One();
    var zero := Equal(n, [0]);
    if zero {
      ZeroInteger(n);
      return "0";
    }
    var isNeg := signed && IsNegative(n);
    var t := n;
    if isNeg { t := UnaryMinus(n); }
    SignMagnitude(n, t, signed);
    res := Peel(t);
    if isNeg { res := "-" + res; }
  }

  lemma ZeroInteger(n: seq<nat>)
    requires Wide(n) && |n| > 0 && Value(n) == 0
    ensures IntegerOf(true, n) == 0 == IntegerOf(false, n)
  {
    SignedRange(n);
    ZeroItems(n);
  }

  /** The digits come from the magnitude, even that of the least number. */
  lemma SignMagnitude(n: seq<nat>, t: seq<nat>, signed: bool)
    requires Wide(n) && |n| > 0 && Value(n) > 0
    requires if signed && IsNegative(n) then Value(t) == (0 - Value(n)) % Size(|n|) else t == n
    ensures IntegerOf(signed, n) == (if signed && IsNegative(n) then 0 - Value(t) else Value(t)) && Value(t) > 0
  {
    hide Value, Size;
    ValueFits(n);
    if signed && IsNegative(n) {
      ModAddMultiple(0 - Value(n), 1, Size(|n|));
      ModSmall(Size(|n|) - Value(n), Size(|n|));
    }
  }

  /** `operator_percent` and `operator_slash` by ten. */
  method ByTen(t: seq<nat>) returns (digit: nat, rest: seq<nat>)
    requires Wide(t) && |t| > 0
    ensures Wide(rest) && |rest| == |t| && digit < 10 && Value(t) == Value(rest) * 10 + digit
  {
    hide Size;
    var ten := Resize([10], |t|);
    assert Value([10]) == 10 + BASE * Value([]) == 10;
    Reading([10], |t|);
    hide Value;
    var byRemainder := Divide(t, ten);
    var byQuotient := Divide(t, ten);
    digit := byRemainder.remainder[0];
    rest := byQuotient.quotient;
    LowItem(byRemainder.remainder);
    SameDivision(Value(t), Value(rest), Value(byQuotient.remainder), Value(byRemainder.quotient), Value(byRemainder.remainder));
  }

  lemma LowItem(a: seq<nat>)
    requires |a| > 0 && Value(a) < 10
    ensures a[0] == Value(a)
  {
    assert Value(a) == a[0] + BASE * Value(a[1..]);
  }

  lemma SameDivision(v: nat, q: nat, r: nat, q': nat, r': nat)
    requires v == q * 10 + r && v == q' * 10 + r' && r < 10 && r' < 10
    ensures q == q' && r == r'
  {
  }

  // ---------- Round trip ----------

  lemma {:induction false} DigitsDenote(n: nat)
    ensures AllDigits(false, Digits(n)) && Numeral(false, Digits(n)) == n
  {
    if n > 0 {
      DigitsDenote(n / 10);
      assert Digits(n)[..|Digits(n)| - 1] == Digits(n / 10);
    }
  }

  lemma DecimalDenotes(n: nat)
    ensures |Decimal(n)| > 0 && AllDigits(false, Decimal(n)) && Numeral(false, Decimal(n)) == n
    ensures n > 0 ==> Decimal(n)[0] != '0'
  {
    if n == 0 {
      assert "0"[..0] == "";
    } else {
      DigitsDenote(n);
      NoLeadingZero(n);
    }
  }

  /** What is printed denotes what was printed. */
  lemma ShowDenotes(signed: bool, n: int)
    requires n < 0 ==> signed
    ensures Denotes(signed, Show(n)) == Some(n)
  {
    hide Decimal, Numeral;
    var m := if n < 0 then -n else n;
    DecimalDenotes(m);
    var t := Decimal(m);
    assert IsDigit(false, t[0]) && (|t| >= 2 ==> IsDigit(false, t[1]));
    assert n < 0 ==> Show(n)[1..] == t;
  }

  /** Printing a number and parsing the text gives the number back, to the last item. */
  method PrintThenParse(n: seq<nat>, signed: bool) returns (r: Parsed)
    requires Wide(n) && |n| > 0
    ensures r == Number(n)
  {
    hide Value, Size, Show, Denotes;
    var text := ToString(n, signed);
    r := FromStr(|n|, signed, text);
    SignedRange(n);
    ShowDenotes(signed, IntegerOf(signed, n));
    ValueFits(n);
    ModSmall(Value(n), Size(|n|));
    ValueUnique(n, r.items);
  }
}
