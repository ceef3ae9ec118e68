/** The fallback 128-bit integer: four 32-bit words, carries by hand. */
module Uint128 {
  import opened Arith
  import Words32

  const W := Words32.W
  const D := 0x1_0000_0000_0000_0000
  const Q := 0x1_0000_0000_0000_0000_0000_0000_0000_0000

  datatype X4 = X4(v0: nat, v1: nat, v2: nat, v3: nat) {
    ghost predicate Ok() { v0 < W && v1 < W && v2 < W && v3 < W }

    /** The two double words. */
    function D01(): nat { v0 + W * v1 }

    function D23(): nat { v2 + W * v3 }

    ghost function Value(): nat { D01() + D * D23() }
  }

  datatype Sum = Sum(result: nat, carry: bool)

  function AddWithCarry(x: nat, y: nat, carry: bool): Sum {
    var half := (y + AsNat(carry)) % W;
    var result := (x + half) % W;
    Sum(result, half < y || result < x)
  }

  function SubWithCarry(x: nat, y: nat, carry: bool): Sum {
    var half := (y + AsNat(carry)) % W;
    var result := (x - half) % W;
    Sum(result, half < y || result > x)
  }

  lemma OneWrap(x: int)
    requires 0 - W < x < 2 * W
    ensures x % W == if x < 0 then x + W else if x < W then x else x - W
  {
    if x < 0 { DivModUnique(x, W, -1, x + W); }
    else if x < W { ModSmall(x, W); }
    else { DivModUnique(x, W, 1, x - W); }
  }

  /** Nothing is lost: the carry stands for what the word cannot hold. */
  lemma AddMeans(x: nat, y: nat, carry: bool)
    requires x < W && y < W
    ensures var s := AddWithCarry(x, y, carry);
            s.result < W && x + y + AsNat(carry) == s.result + W * AsNat(s.carry)
  {
    var half := (y + AsNat(carry)) % W;
    OneWrap(y + AsNat(carry));
    OneWrap(x + half);
  }

  lemma SubMeans(x: nat, y: nat, carry: bool)
    requires x < W && y < W
    ensures var s := SubWithCarry(x, y, carry);
            s.result < W && s.result + y + AsNat(carry) == x + W * AsNat(s.carry)
  {
    var half := (y + AsNat(carry)) % W;
    OneWrap(y + AsNat(carry));
    OneWrap(x - half);
  }

  /** Four columns of an addition with their carries. */
  lemma Columns(a: X4, b: X4, r: X4, c0: bool, c1: bool, c2: bool, c3: bool)
    requires a.v0 + b.v0 == r.v0 + W * AsNat(c0) && a.v1 + b.v1 + AsNat(c0) == r.v1 + W * AsNat(c1)
    requires a.v2 + b.v2 + AsNat(c1) == r.v2 + W * AsNat(c2) && a.v3 + b.v3 + AsNat(c2) == r.v3 + W * AsNat(c3)
    ensures a.Value() + b.Value() == r.Value() + Q * AsNat(c3)
  {
    assert a.D01() + b.D01() == r.D01() + D * AsNat(c1);
    assert a.D23() + b.D23() + AsNat(c1) == r.D23() + D * AsNat(c3);
  }

  lemma NoCarry()
    ensures AsNat(false) == 0
  {
  }

  lemma Fits(r: X4)
    requires r.Ok()
    ensures r.Value() < Q
  {
  }

  lemma Reduce(x: int, r: nat, k: int)
    requires x == r + Q * k && r < Q
    ensures r == x % Q
  {
    DivModUnique(x, Q, k, r);
  }

  method Plus(a: X4, b: X4) returns (r: X4)
    requires a.Ok() && b.Ok()
    ensures r.Ok() && r.Value() == (a.Value() + b.Value()) % Q
  {
    hide AddWithCarry, AsNat, X4.Value;
    NoCarry();
    var s0 := AddWithCarry(a.v0, b.v0, false);
    AddMeans(a.v0, b.v0, false);
    var s1 := AddWithCarry(a.v1, b.v1, s0.carry);
    AddMeans(a.v1, b.v1, s0.carry);
    var s2 := AddWithCarry(a.v2, b.v2, s1.carry);
    AddMeans(a.v2, b.v2, s1.carry);
    var s3 := AddWithCarry(a.v3, b.v3, s2.carry);
    AddMeans(a.v3, b.v3, s2.carry);
    r := X4(s0.result, s1.result, s2.result, s3.result);
    Fits(r);
    Columns(a, b, r, s0.carry, s1.carry, s2.carry, s3.carry);
    Reduce(a.Value() + b.Value(), r.Value(), AsNat(s3.carry));
  }

  method Minus(a: X4, b: X4) returns (r: X4)
    requires a.Ok() && b.Ok()
    ensures r.Ok() && r.Value() == (a.Value() - b.Value()) % Q
  {
    hide SubWithCarry, AsNat, X4.Value;
    NoCarry();
    var s0 := SubWithCarry(a.v0, b.v0, false);
    SubMeans(a.v0, b.v0, false);
    var s1 := SubWithCarry(a.v1, b.v1, s0.carry);
    SubMeans(a.v1, b.v1, s0.carry);
    var s2 := SubWithCarry(a.v2, b.v2, s1.carry);
    SubMeans(a.v2, b.v2, s1.carry);
    var s3 := SubWithCarry(a.v3, b.v3, s2.carry);
    SubMeans(a.v3, b.v3, s2.carry);
    r := X4(s0.result, s1.result, s2.result, s3.result);
    Fits(r);
    Columns(r, b, a, s0.carry, s1.carry, s2.carry, s3.carry);
    Reduce(a.Value() - b.Value(), r.Value(), 0 - AsNat(s3.carry));
  }

  // ---------- Multiplication ----------

  function Low(x: nat): nat { x % W }

  function High(x: nat): nat { x / W % W }

  lemma Halves(a: nat, b: nat)
    requires a < W && b < W
    ensures var x := Product(a, b); x == Low(x) + W * High(x) && Low(x) < W && High(x) < W
  {
    Below(a, b);
    WordHalves(a * b);
  }

  lemma WordHalves(x: nat)
    requires x <= (W - 1) * (W - 1)
    ensures x == x % W + W * (x / W % W)
  {
    assert x / W < W;
    assert x / W % W == x / W;
  }

  lemma Below(a: nat, b: nat)
    requires a < W && b < W
    ensures a * b <= (W - 1) * (W - 1)
  {
    MulMonotone(a, W - 1, b);
    MulMonotone(b, W - 1, W - 1);
  }

  /** Adds `y` at word 1 and lets the carry run to the top. */
  method AddAt1(r: X4, y: nat) returns (s: X4, ghost k: nat)
    requires r.Ok() && y < W
    ensures s.Ok() && s.Value() + Q * k == r.Value() + W * y
  {
    hide AddWithCarry;
    var s1 := AddWithCarry(r.v1, y, false);
    AddMeans(r.v1, y, false);
    var s2 := AddWithCarry(r.v2, 0, s1.carry);
    AddMeans(r.v2, 0, s1.carry);
    var s3 := AddWithCarry(r.v3, 0, s2.carry);
    AddMeans(r.v3, 0, s2.carry);
    s := X4(r.v0, s1.result, s2.result, s3.result);
    k := AsNat(s3.carry);
  }

  /** Adds `y` at word 2 and `z` at word 3. */
  method AddAt2(r: X4, y: nat, z: nat) returns (s: X4, ghost k: nat)
    requires r.Ok() && y < W && z < W
    ensures s.Ok() && s.Value() + Q * k == r.Value() + D * (y + W * z)
  {
    hide AddWithCarry;
    var s2 := AddWithCarry(r.v2, y, false);
    AddMeans(r.v2, y, false);
    var s3 := AddWithCarry(r.v3, z, s2.carry);
    AddMeans(r.v3, z, s2.carry);
    s := X4(r.v0, r.v1, s2.result, s3.result);
    k := AsNat(s3.carry);
  }

  function Product(a: nat, b: nat): nat { a * b }

  /** The double words of the operands that only reach the upper half. */
  function CrossTerm(a: X4, b: X4): nat {
    (a.D01() * b.D23() + a.D23() * b.D01()) % D
  }

  /** The product modulo 2^128, word by word. */
  method Times(a: X4, b: X4) returns (r: X4)
    requires a.Ok() && b.Ok()
    ensures r.Ok() && r.Value() == a.Value() * b.Value() % Q
  {
    hide Low, High, Product, CrossTerm;
    ghost var k1, k2, k3, k4;
    var a0b0 := Product(a.v0, b.v0);
    Halves(a.v0, b.v0);
    var a1b0 := Product(a.v1, b.v0);
    Halves(a.v1, b.v0);
    r := X4(Low(a0b0), High(a0b0), High(a1b0), 0);
    r, k1 := AddAt1(r, Low(a1b0));
    var a0b1 := Product(a.v0, b.v1);
    Halves(a.v0, b.v1);
    r, k2 := AddAt2(r, High(a0b1), 0);
    r, k3 := AddAt1(r, Low(a0b1));
    var a1b1 := Product(a.v1, b.v1);
    Halves(a.v1, b.v1);
    r, k4 := AddAt2(r, Low(a1b1), High(a1b1));
    ghost var low := r;
    var top := (r.D23() + CrossTerm(a, b)) % D;
    r := X4(r.v0, r.v1, top % W, top / W);
    hide X4.Value;
    TimesValue(a, b, low, r, k1 + k2 + k3 + k4);
  }

  lemma TimesValue(a: X4, b: X4, low: X4, r: X4, k: nat)
    requires low.Ok()
    requires low.Value() + Q * k == Product(a.v0, b.v0) + W * (Product(a.v1, b.v0) + Product(a.v0, b.v1)) + D * Product(a.v1, b.v1)
    requires r.v0 == low.v0 && r.v1 == low.v1 && r.v2 < W && r.v3 < W
    requires r.D23() == (low.D23() + CrossTerm(a, b)) % D
    ensures r.Value() == a.Value() * b.Value() % Q
  {
    var cross := a.D01() * b.D23() + a.D23() * b.D01();
    var t := low.D23() + cross % D;
    var j := cross / D + t / D;
    assert cross == cross % D + D * (cross / D) && t == r.D23() + D * (t / D);
    assert low.D23() + cross == r.D23() + D * j;
    Squares(a.v0, a.v1, b.v0, b.v1);
    Cross(a.D01(), a.D23(), b.D01(), b.D23());
    var product := a.Value() * b.Value();
    assert product == r.Value() + Q * (k + j + a.D23() * b.D23());
    DivModUnique(product, Q, k + j + a.D23() * b.D23(), r.Value());
  }

  lemma Squares(a: int, b: int, c: int, d: int)
    ensures (a + W * b) * (c + W * d) == a * c + W * (b * c + a * d) + D * (b * d)
  {
    assert (a + W * b) * (c + W * d) == a * c + W * (a * d) + W * (b * c) + W * W * (b * d);
  }

  lemma Cross(a: int, b: int, c: int, d: int)
    ensures (a + D * b) * (c + D * d) == a * c + D * (a * d + b * c) + Q * (b * d)
  {
    assert (a + D * b) * (c + D * d) == a * c + D * (a * d) + D * (b * c) + D * D * (b * d);
  }

  // ---------- Logarithms ----------

  /** The logarithm, from the highest word that is not zero. */
  method Flog2(v: X4) returns (r: nat)
    requires v.Ok() && v.Value() > 0
    ensures r == Log2(v.Value())
  {
    hide Log2, Pow2;
    if v.v3 != 0 {
      HighWord(v.v3, v.v0 + W * v.v1 + D * v.v2, 96);
      return Log2(v.v3) + 96;
    } else if v.v2 != 0 {
      HighWord(v.v2, v.v0 + W * v.v1, 64);
      return Log2(v.v2) + 64;
    } else if v.v1 != 0 {
      HighWord(v.v1, v.v0, 32);
      return Log2(v.v1) + 32;
    } else {
      return Log2(v.v0);
    }
  }

  lemma HighWord(word: nat, rest: nat, bits: nat)
    requires word > 0 && (bits == 32 || bits == 64 || bits == 96)
    requires rest < if bits == 32 then W else if bits == 64 then D else W * D
    ensures var v := rest + word * if bits == 32 then W else if bits == 64 then D else W * D;
            v > 0 && Log2(v) == Log2(word) + bits
  {
    MachineWidths();
    hide Pow2, Log2;
    Pow2Add(32, 64);
    var l, p := Log2(word), Pow2(bits);
    Log2Means(word);
    Pow2Add(l, bits);
    Pow2Add(l + 1, bits);
    ScaleUp(word, Pow2(l), Pow2(l + 1), p, rest);
    Log2Is(rest + word * p, l + bits);
  }

  lemma ScaleUp(x: nat, lo: nat, hi: nat, p: nat, rest: nat)
    requires lo <= x < hi && rest < p
    ensures lo * p <= rest + x * p < hi * p
  {
    MulMonotone(lo, x, p);
    MulMonotone(x + 1, hi, p);
  }

  /** The first estimate never exceeds the dividend. */
  lemma Underestimate(dividend: nat, divisor: nat)
    requires 0 < divisor <= dividend
    ensures Log2(divisor) <= Log2(dividend)
    ensures Log2(divisor) == Log2(dividend) ==> dividend < 2 * divisor
    ensures Log2(divisor) < Log2(dividend) ==> divisor * Pow2(Log2(dividend) - Log2(divisor) - 1) <= dividend
  {
    hide Log2;
    var a, b := Log2(divisor), Log2(dividend);
    Log2Means(divisor);
    Log2Means(dividend);
    if a > b { Pow2Monotone(b + 1, a); }
    if a < b {
      Pow2Add(a + 1, b - a - 1);
      MulMonotone(divisor, Pow2(a + 1), Pow2(b - a - 1));
    }
  }

  // ---------- Shifts and order ----------

  function WordsOf(x: X4): seq<nat> { [x.v0, x.v1, x.v2, x.v3] }

  function FromWords(s: seq<nat>): X4
    requires |s| == 4
  {
    X4(s[0], s[1], s[2], s[3])
  }

  lemma FourWords(s: seq<nat>)
    requires |s| == 4
    ensures Words32.Value(s) == FromWords(s).Value() && Words32.Weight(4) == Q
    ensures Words32.Words(s) ==> FromWords(s).Ok()
  {
    assert s[1..][1..] == s[2..] && s[2..][1..] == s[3..] && s[3..][1..] == [];
    assert Words32.Value(s[3..]) == s[3] && Words32.Value(s[2..]) == s[2] + W * s[3];
    assert Words32.Value(s[1..]) == s[1] + W * Words32.Value(s[2..]);
    assert Words32.Weight(1) == W && Words32.Weight(2) == W * Words32.Weight(1) && Words32.Weight(3) == W * Words32.Weight(2);
  }

  method ShiftLeft(v: X4, shift: nat) returns (r: X4)
    requires v.Ok() && shift < 128
    ensures r.Ok() && r.Value() == v.Value() * Pow2(shift) % Q
  {
    hide Words32.Value, Words32.Weight, Pow2, X4.Value;
    var words := Words32.ShiftLeft(WordsOf(v), shift);
    FourWords(WordsOf(v));
    FourWords(words);
    r := FromWords(words);
  }

  method ShiftRight(v: X4, shift: nat) returns (r: X4)
    requires v.Ok() && shift < 128
    ensures r.Ok() && r.Value() == v.Value() / Pow2(shift)
  {
    hide Words32.Value, Words32.Weight, Pow2, X4.Value;
    var words := Words32.ShiftRight(WordsOf(v), shift);
    FourWords(WordsOf(v));
    FourWords(words);
    r := FromWords(words);
  }

  predicate LessThan(a: X4, b: X4) {
    a.D23() < b.D23() || (a.D23() == b.D23() && a.D01() < b.D01())
  }

  /** The double words decide from the top. */
  lemma LessMeans(a: X4, b: X4)
    requires a.Ok() && b.Ok()
    ensures LessThan(a, b) <==> a.Value() < b.Value()
  {
  }

  // ---------- Division ----------

  /** Shift-and-subtract from an underestimate; a factor may be subtracted more than once. */
  method Divmod(orig: X4, divisor: X4) returns (quotient: X4, remainder: X4)
    requires orig.Ok() && divisor.Ok() && divisor.Value() > 0
    ensures quotient.Ok() && remainder.Ok()
    ensures orig.Value() == quotient.Value() * divisor.Value() + remainder.Value() && remainder.Value() < divisor.Value()
  {
    Constants();
    hide Log2, Pow2, X4.Value, LessThan;
    LessMeans(orig, divisor);
    if LessThan(orig, divisor) { return X4(0, 0, 0, 0), orig; }
    Fits(orig);
    Fits(divisor);
    Underestimate(orig.Value(), divisor.Value());
    var dividend := orig;
    var logDivisor := Flog2(divisor);
    var logDividend := Flog2(dividend);
    LogFits(orig.Value());
    var logdiff: nat := logDividend - logDivisor;
    if logdiff == 0 {
      remainder := Minus(dividend, divisor);
      ModSmall(dividend.Value() - divisor.Value(), Q);
      return X4(1, 0, 0, 0), remainder;
    }
    logdiff := logdiff - 1;
    quotient := X4(0, 0, 0, 0);
    FactorFits(orig.Value(), divisor.Value(), logdiff);
    var qfactor := ShiftLeft(X4(1, 0, 0, 0), logdiff);
    var factor := ShiftLeft(divisor, logdiff);
    ghost var j: nat := logdiff;
    while true
      invariant dividend.Ok() && quotient.Ok() && factor.Ok() && qfactor.Ok()
      invariant orig.Value() == quotient.Value() * divisor.Value() + dividend.Value() && factor.Value() <= dividend.Value()
      invariant Doubled(divisor.Value(), factor.Value(), qfactor.Value(), j)
      decreases dividend.Value()
    {
      FactorPositive(divisor.Value(), factor.Value(), qfactor.Value(), j);
      Accumulate(quotient.Value(), qfactor.Value(), divisor.Value(), factor.Value(), dividend.Value(), orig.Value());
      ModSmall(quotient.Value() + qfactor.Value(), Q);
      Fits(dividend);
      ModSmall(dividend.Value() - factor.Value(), Q);
      dividend := Minus(dividend, factor);
      quotient := Plus(quotient, qfactor);
      factor, qfactor, j := Narrow(dividend, divisor, factor, qfactor, j);
      LessMeans(dividend, divisor);
      if LessThan(dividend, divisor) { break; }
    }
    remainder := dividend;
  }

  /** The inner loop: the largest halving of the factor that does not exceed the dividend. */
  method Narrow(dividend: X4, divisor: X4, factor0: X4, qfactor0: X4, ghost j0: nat)
      returns (factor: X4, qfactor: X4, ghost j: nat)
    requires dividend.Ok() && divisor.Ok() && factor0.Ok() && qfactor0.Ok()
    requires Doubled(divisor.Value(), factor0.Value(), qfactor0.Value(), j0)
    ensures factor.Ok() && qfactor.Ok() && factor.Value() <= dividend.Value()
    ensures dividend.Value() >= divisor.Value() ==> Doubled(divisor.Value(), factor.Value(), qfactor.Value(), j)
  {
    hide Pow2, X4.Value, LessThan, Doubled;
    factor, qfactor, j := factor0, qfactor0, j0;
    LessMeans(dividend, factor);
    OneBit();
    while LessThan(dividend, factor)
      invariant factor.Ok() && qfactor.Ok() && (LessThan(dividend, factor) <==> dividend.Value() < factor.Value())
      invariant dividend.Value() >= divisor.Value() ==> Doubled(divisor.Value(), factor.Value(), qfactor.Value(), j)
      decreases factor.Value()
    {
      if dividend.Value() >= divisor.Value() {
        Halve(divisor.Value(), factor.Value(), qfactor.Value(), j, dividend.Value());
        j := j - 1;
      }
      factor := ShiftRight(factor, 1);
      qfactor := ShiftRight(qfactor, 1);
      LessMeans(dividend, factor);
    }
  }

  lemma OneBit()
    ensures Pow2(1) == 2
  {
  }

  lemma Constants()
    ensures X4(0, 0, 0, 0).Value() == 0 && X4(1, 0, 0, 0).Value() == 1
  {
  }

  lemma LogFits(v: nat)
    requires 0 < v < Q
    ensures Log2(v) < 128
  {
    MachineWidths();
    hide Pow2, Log2;
    Log2Means(v);
    if Log2(v) >= 128 { Pow2Monotone(128, Log2(v)); }
  }

  ghost predicate Doubled(divisor: nat, factor: nat, qfactor: nat, j: nat) {
    qfactor == Pow2(j) && factor == divisor * qfactor
  }

  lemma FactorFits(orig: nat, divisor: nat, l: nat)
    requires 0 < divisor && divisor * Pow2(l) <= orig < Q
    ensures 1 * Pow2(l) % Q == Pow2(l) && divisor * Pow2(l) % Q == divisor * Pow2(l)
    ensures Doubled(divisor, divisor * Pow2(l), Pow2(l), l)
  {
    MulAtLeast(divisor, Pow2(l));
    ModSmall(Pow2(l), Q);
    ModSmall(divisor * Pow2(l), Q);
  }

  lemma FactorPositive(divisor: nat, factor: nat, qfactor: nat, j: nat)
    requires divisor > 0 && Doubled(divisor, factor, qfactor, j)
    ensures factor > 0 && factor == divisor * qfactor
  {
    MulAtLeast(qfactor, divisor);
  }

  lemma Accumulate(q: nat, f: nat, d: nat, factor: nat, dividend: nat, orig: nat)
    requires factor == d * f && orig == q * d + dividend && factor <= dividend && orig < Q && d > 0
    ensures orig == (q + f) * d + (dividend - factor) && q + f < Q
  {
    assert (q + f) * d == q * d + factor;
    MulAtLeast(d, q + f);
  }

  lemma Halve(divisor: nat, factor: nat, qfactor: nat, j: nat, dividend: nat)
    requires Doubled(divisor, factor, qfactor, j) && divisor <= dividend < factor
    ensures j > 0 && Doubled(divisor, factor / 2, qfactor / 2, j - 1)
  {
    if j > 0 {
      var h := Pow2(j - 1);
      assert divisor * (2 * h) == 2 * (divisor * h);
    }
  }
}
