/** Decimal notation: what the printers of this project are to produce. */
module Decimals {
  import opened Arith

  function DigitChar(d: nat): char
    requires d < 10
  {
    '0' + d as char
  }

  /** The decimal digits of a number, without leading zeros; none for zero. */
  function Digits(n: nat): string {
    if n == 0 then "" else Digits(n / 10) + [DigitChar(n % 10)]
  }

  function Decimal(n: nat): string {
    if n == 0 then "0" else Digits(n)
  }

  function Show(n: int): string {
    if n < 0 then "-" + Decimal(-n) else Decimal(n)
  }

  lemma DigitChars(d: nat)
    requires d < 10
    ensures DigitChar(d) == "0123456789"[d]
  {
  }

  /** A digit more is worth ten times as much. */
  lemma DigitsGrow(n: nat, d: nat)
    requires d < 10 && n + d > 0
    ensures Digits(10 * n + d) == Digits(n) + ["0123456789"[d]] && Digits(0) == ""
  {
    assert (10 * n + d) / 10 == n && (10 * n + d) % 10 == d;
    DigitChars(d);
  }

  /** No text starts with a superfluous zero. */
  lemma {:induction false} NoLeadingZero(n: nat)
    requires n > 0
    ensures |Digits(n)| > 0 && Digits(n)[0] != '0'
  {
    if n >= 10 { NoLeadingZero(n / 10); } else { assert Digits(n / 10) == ""; }
  }

  lemma NoDigits(v: nat)
    ensures Digits(0) == "" && Digits(v) + "" == Digits(v)
  {
  }

  /** Taking the lowest digit off. */
  lemma NextDigit(v: nat, digit: nat, rest: nat, res: string)
    requires v > 0 && digit < 10 && v == rest * 10 + digit
    ensures Digits(v) + res == Digits(rest) + ([DigitChar(digit)] + res) && rest < v
  {
    assert v / 10 == rest && v % 10 == digit;
    assert Digits(rest) + [DigitChar(digit)] + res == Digits(rest) + ([DigitChar(digit)] + res);
  }

  // ---------- Fixed widths ----------

  function Pow10(k: nat): (p: nat)
    ensures p >= 1
  {
    if k == 0 then 1 else 10 * Pow10(k - 1)
  }

  /** The lowest `k` digits, zeros included. */
  function Padded(n: nat, k: nat): (s: string)
    ensures |s| == k
  {
    if k == 0 then "" else Padded(n / 10, k - 1) + [DigitChar(n % 10)]
  }

  lemma {:induction false} Pow10Add(a: nat, b: nat)
    ensures Pow10(a + b) == Pow10(a) * Pow10(b)
  {
    if a > 0 {
      Pow10Add(a - 1, b);
      assert Pow10(a + b) == 10 * (Pow10(a - 1) * Pow10(b));
    }
  }

  lemma SplitTen(q: nat, p: nat, r: nat)
    requires p > 0
    ensures (q * (10 * p) + r) / 10 == q * p + r / 10 && (q * (10 * p) + r) % 10 == r % 10
  {
    assert q * (10 * p) == 10 * (q * p);
  }

  /** A number is its upper digits followed by its lower ones. */
  lemma {:induction false} PaddedSplit(q: nat, r: nat, j: nat, k: nat)
    requires r < Pow10(k)
    ensures Padded(q * Pow10(k) + r, j + k) == Padded(q, j) + Padded(r, k)
    decreases k
  {
    if k == 0 {
      assert q * Pow10(0) + r == q && Padded(q, j) + "" == Padded(q, j);
    } else {
      SplitTen(q, Pow10(k - 1), r);
      PaddedSplit(q, r / 10, j, k - 1);
      assert Padded(q, j) + Padded(r / 10, k - 1) + [DigitChar(r % 10)] == Padded(q, j) + Padded(r, k);
    }
  }

  lemma {:induction false} DigitsSplit(q: nat, r: nat, k: nat)
    requires r < Pow10(k) && q > 0
    ensures Digits(q * Pow10(k) + r) == Digits(q) + Padded(r, k)
    decreases k
  {
    if k == 0 {
      assert q * Pow10(0) + r == q && Digits(q) + "" == Digits(q);
    } else {
      SplitTen(q, Pow10(k - 1), r);
      DigitsSplit(q, r / 10, k - 1);
      MulAtLeast(q, Pow10(k));
      assert Digits(q) + Padded(r / 10, k - 1) + [DigitChar(r % 10)] == Digits(q) + Padded(r, k);
    }
  }

  lemma {:induction false} LengthIs(n: nat, k: nat)
    requires k > 0 && Pow10(k - 1) <= n < Pow10(k)
    ensures |Digits(n)| == k
  {
    if k > 1 { LengthIs(n / 10, k - 1); } else { assert Digits(n / 10) == ""; }
  }
}
