/** What the division loops do to signed numbers of one bit more than `h`: those from `-h` to `h - 1`. */
module SignedDivision {
  import opened Arith
  import Bits
  import WideDiv

  /** The numerator, the divisor and its weight on their way, and the quotient's bits so far. */
  datatype State = State(n: int, d: int, x: int, q: nat)

  predicate Fits(v: int, h: nat) {
    0 - h <= v < h
  }

  /** A number kept in two's complement. */
  function Wrap(v: int, h: nat): int
    requires h > 0
  {
    (v + h) % (2 * h) - h
  }

  /** The first loop: doubles the divisor while it is at most the numerator and its sign bit is clear. */
  function Grow(n: int, d: int, x: int, h: nat): (int, int)
    requires 0 < h && d != 0 && Fits(d, h)
    decreases if d > 0 then h - d else 0
  {
    if d > n || d < 0 then (d, x) else (WrapTwice(d, h); Grow(n, Wrap(2 * d, h), Wrap(2 * x, h), h))
  }

  /** One round of the second loop; the right shifts keep the sign. */
  function Step(s: State, h: nat): State
    requires h > 0
  {
    if s.d > s.n then State(s.n, s.d / 2, s.x / 2, s.q)
    else State(Wrap(s.n - s.d, h), s.d / 2, s.x / 2, Bits.Or(s.q, s.x % (2 * h)))
  }

  /** At most `k` rounds: the loop ends when the weight is zero. */
  function Rounds(s: State, h: nat, k: nat): State
    requires h > 0
    decreases k
  {
    if k == 0 || s.x == 0 then s else Rounds(Step(s, h), h, k - 1)
  }

  function Start(n: int, d: int, h: nat): State
    requires 0 < h && d != 0 && Fits(d, h)
  {
    var g := Grow(n, d, 1, h);
    State(n, g.0, g.1, 0)
  }

  /** The largest doubling of `d` whose sign bit is clear. */
  function Top(d: nat, h: nat): nat
    requires d > 0
    decreases h - d
  {
    if 2 * d < h then Top(2 * d, h) else d
  }

  // ---------- Wrapping ----------

  lemma WrapSmall(v: int, h: nat)
    requires h > 0 && Fits(v, h)
    ensures Wrap(v, h) == v
  {
    ModSmall(v + h, 2 * h);
  }

  lemma WrapHigh(v: int, h: nat)
    requires h > 0 && h <= v < 3 * h
    ensures Wrap(v, h) == v - 2 * h
  {
    DivModUnique(v + h, 2 * h, 1, v - h);
  }

  lemma WrapNegated(a: int, h: nat)
    requires a < 0 && Fits(a, h)
    ensures Wrap(0 - a, h) == if a == 0 - h then a else 0 - a
  {
    if a == 0 - h { WrapHigh(0 - a, h); } else { WrapSmall(0 - a, h); }
  }

  lemma WrapTwice(d: int, h: nat)
    requires 0 < d < h
    ensures Wrap(2 * d, h) == if 2 * d < h then 2 * d else 2 * d - 2 * h
  {
    if 2 * d < h { WrapSmall(2 * d, h); } else { WrapHigh(2 * d, h); }
  }

  // ---------- Rounds ----------

  lemma {:induction false} OneMore(s: State, h: nat, k: nat)
    requires h > 0
    ensures var r := Rounds(s, h, k); Rounds(s, h, k + 1) == if r.x == 0 then r else Step(r, h)
    decreases k
  {
    hide Step;
    if k > 0 && s.x != 0 { OneMore(Step(s, h), h, k - 1); }
  }

  /** Once the loop has ended, more rounds change nothing. */
  lemma {:induction false} StaysEnded(s: State, h: nat, k: nat, more: nat)
    requires h > 0 && k <= more && Rounds(s, h, k).x == 0
    ensures Rounds(s, h, more) == Rounds(s, h, k)
    decreases k
  {
    hide Step;
    if k > 0 && s.x != 0 { StaysEnded(Step(s, h), h, k - 1, more - 1); }
  }

  // ---------- The numerator is below the largest doubling ----------

  lemma Twice(d0: nat, d: nat, x: nat, j: nat, h: nat)
    requires d0 > 0 && WideDiv.Doubled(d0, d, x, j) && d < h
    ensures 0 < x <= d && WideDiv.Doubled(d0, 2 * d, 2 * x, j + 1)
    ensures 2 * d < h ==> Wrap(2 * d, h) == 2 * d && Wrap(2 * x, h) == 2 * x
    ensures 2 * d >= h ==> Wrap(2 * d, h) == 2 * d - 2 * h
  {
    MulAtLeast(d0, x);
    assert d0 * (2 * x) == 2 * (d0 * x);
    WrapTwice(d, h);
    WrapTwice(x, h);
  }

  lemma {:induction false} GrowBelow(n: nat, d0: nat, d: nat, x: nat, i: nat, h: nat) returns (j: nat)
    requires d0 > 0 && WideDiv.Doubled(d0, d, x, i) && 0 < d < h && n < Top(d, h)
    ensures var g := Grow(n, d, x, h); n < g.0 < h && 0 < g.1 <= g.0 && WideDiv.Doubled(d0, g.0, g.1, j)
    decreases h - d
  {
    hide Pow2, Wrap, WideDiv.Doubled;
    Twice(d0, d, x, i, h);
    j := i;
    if d <= n { j := GrowBelow(n, d0, 2 * d, 2 * x, i + 1, h); }
  }

  /** The rounds of long division, with nothing wrapped on the way. */
  lemma {:induction false} LongDivision(n0: nat, d0: nat, s: State, j: nat, h: nat)
    requires 0 <= s.n < h && 0 <= s.d && 0 < s.x < h && WideDiv.Dividing(n0, d0, s.n, s.d, s.x, s.q, j)
    ensures var r := Rounds(s, h, j + 1); r.x == 0 && 0 <= r.n < d0 && n0 == r.q * d0 + r.n
    decreases j
  {
    hide WideDiv.Dividing, WideDiv.Doubled, Bits.Or, Wrap, Pow2;
    WideDiv.Round(n0, d0, s.n, s.d, s.x, s.q, j);
    if s.d <= s.n {
      WrapSmall(s.n - s.d, h);
      ModSmall(s.x, 2 * h);
    }
    var t := Step(s, h);
    WideDiv.Halve(n0, d0, t.n, s.d, s.x, t.q, j);
    Two();
    if j == 0 {
      WideDiv.Ended(n0, d0, t.n, t.d, t.x, t.q, 0);
    } else {
      Weight(d0, s.d, s.x, j);
      LongDivision(n0, d0, t, j - 1, h);
    }
  }

  lemma Two()
    ensures Pow2(1) == 2
  {
  }

  lemma Weight(d0: nat, d: nat, x: nat, j: nat)
    requires WideDiv.Doubled(d0, d, x, j)
    ensures x == Pow2(j) && (j > 0 ==> x >= 2)
  {
  }

  lemma Exponents(j: nat, b: nat)
    requires Pow2(j) < Pow2(b)
    ensures j < b
  {
    if j >= b { Pow2Monotone(b, j); }
  }

  lemma Single(d: nat)
    ensures WideDiv.Doubled(d, d, 1, 0)
  {
  }

  lemma Below(n: nat, d: nat, h: nat, b: nat) returns (k: nat)
    requires h == Pow2(b) && 0 < d < h && n < Top(d, h) && n < h
    ensures k <= b && var r := Rounds(Start(n, d, h), h, k); r.x == 0 && r.q == n / d && r.n == n % d
  {
    hide Rounds, Grow, Pow2, WideDiv.Doubled, WideDiv.Dividing;
    Single(d);
    var j := GrowBelow(n, d, d, 1, 0, h);
    var s := Start(n, d, h);
    Weight(d, s.d, s.x, j);
    Exponents(j, b);
    WideDiv.DivideStarts(n, d, s.d, s.x, j);
    LongDivision(n, d, s, j, h);
    var r := Rounds(s, h, j + 1);
    DivModUnique(n, d, r.q, r.n);
    k := j + 1;
  }

  // ---------- The numerator is not below it ----------

  lemma {:induction false} GrowAbove(n: nat, d0: nat, d: nat, x: nat, i: nat, h: nat) returns (j: nat)
    requires d0 > 0 && WideDiv.Doubled(d0, d, x, i) && 0 < d < h && Top(d, h) <= n < h
    ensures var t := Top(d, h);
            var p := Pow2(j);
            WideDiv.Doubled(d0, t, p, j) && Grow(n, d, x, h) == (2 * t - 2 * h, Wrap(2 * p, h)) && t < h <= 2 * t
    decreases h - d
  {
    hide Wrap, Pow2;
    Twice(d0, d, x, i, h);
    if 2 * d < h {
      j := GrowAbove(n, d0, 2 * d, 2 * x, i + 1, h);
    } else {
      j := i;
    }
  }

  /** A negative weight never becomes zero. */
  lemma {:induction false} Endless(s: State, h: nat, k: nat)
    requires h > 0 && s.x < 0
    ensures Rounds(s, h, k).x < 0
    decreases k
  {
    if k > 0 { Endless(Step(s, h), h, k - 1); }
  }

  /** The divisor `-e * 2^i` with the weight `2^i`, and the end of the run when it is above the numerator. */
  lemma {:induction false} Skips(s: State, i: nat, e: nat, h: nat)
    requires h > 0 && s.d == 0 - e * Pow2(i) && s.x == Pow2(i) && s.n < s.d
    ensures var r := Rounds(s, h, i + 1); r.x == 0 && r.n == s.n && r.q == s.q
    decreases i
  {
    var t := Step(s, h);
    if i == 0 {
      assert Rounds(t, h, 0) == t;
    } else {
      HalfWeight(e, i);
      hide Pow2;
      Skips(t, i - 1, e, h);
    }
  }

  lemma HalfWeight(e: nat, i: nat)
    requires i > 0
    ensures Pow2(i) == 2 * Pow2(i - 1) && e * Pow2(i) == 2 * (e * Pow2(i - 1))
  {
    assert e * (2 * Pow2(i - 1)) == 2 * (e * Pow2(i - 1));
  }

  /** The end of the run when it is not: every round takes it away, so that the numerator grows. */
  lemma {:induction false} Adds(s: State, i: nat, e: nat, h: nat)
    requires e > 0 && s.d == 0 - e * Pow2(i) && s.x == Pow2(i) < h && s.d <= s.n && s.q % (2 * Pow2(i)) == 0
    requires s.n + 2 * (e * Pow2(i)) - e < h
    ensures var r := Rounds(s, h, i + 1);
            r.x == 0 && r.n == s.n + 2 * (e * Pow2(i)) - e && r.q == s.q + 2 * Pow2(i) - 1
    decreases i
  {
    var t := Step(s, h);
    AddsOnce(s, i, e, h);
    if i == 0 {
      assert Rounds(t, h, 0) == t;
      assert e * Pow2(0) == e;
    } else {
      hide Step;
      HalfWeight(e, i);
      hide Pow2;
      Adds(t, i - 1, e, h);
    }
  }

  lemma AddsOnce(s: State, i: nat, e: nat, h: nat)
    requires e > 0 && s.d == 0 - e * Pow2(i) && s.x == Pow2(i) < h && s.d <= s.n && s.q % (2 * Pow2(i)) == 0
    requires s.n + 2 * (e * Pow2(i)) - e < h
    ensures Step(s, h) == State(s.n - s.d, s.d / 2, s.x / 2, s.q + s.x) && 0 <= s.n - s.d && (s.q + s.x) % s.x == 0
  {
    hide Bits.Or, Wrap;
    WideDiv.NextPow2(i);
    hide Pow2;
    MulAtLeast(Pow2(i), e);
    WrapSmall(s.n - s.d, h);
    ModSmall(s.x, 2 * h);
    Bits.OrIsSum(s.q, s.x, i + 1);
    WideDiv.KeepMultiple(s.q, s.x);
  }

  /** The divisor has become negative, and is taken away at once. */
  lemma FirstRound(n: nat, t: nat, p: nat, h: nat)
    requires t <= n < h <= 2 * t && 0 < p && 2 * p < h && t < h
    ensures Step(State(n, 2 * t - 2 * h, 2 * p, 0), h) == State(n - 2 * t, t - h, p, 2 * p)
  {
    WrapHigh(n - (2 * t - 2 * h), h);
    ModSmall(2 * p, 2 * h);
  }

  /** What is left of the run, by the factors of the largest doubling `d * p` and of `h == c * p`. */
  lemma Rest(n: nat, d: nat, h: nat, c: nat, p: nat, j: nat)
    requires 0 < d < c && h == c * p && p == Pow2(j) && d * p <= n < h <= 2 * (d * p) && 2 * p < h
    ensures var r := Rounds(State(n, 2 * (d * p) - 2 * h, 2 * p, 0), h, j + 2);
            && r.x == 0 && 2 * p <= r.q < 4 * p && Fits(r.n, h)
            && r.n == if n - 2 * (d * p) < d * p - h then n - 2 * (d * p) else n + 2 * h - 4 * (d * p) - (c - d)
  {
    hide Step, Pow2;
    var t := d * p;
    FirstRound(n, t, p, h);
    assert (c - d) * p == h - t;
    var s := State(n - 2 * t, t - h, p, 2 * p);
    assert Rounds(State(n, 2 * t - 2 * h, 2 * p, 0), h, j + 2) == Rounds(s, h, j + 1);
    hide Rounds;
    if s.n < s.d {
      Skips(s, j, c - d, h);
    } else {
      Adds(s, j, c - d, h);
      MulAtLeast(p, c - d);
    }
  }

  lemma {:induction false} FiveApart(k: nat)
    ensures Pow2(k) % 5 != 0
  {
    hide Pow2;
    Pow2Next(if k > 0 then k - 1 else 0);
    if k > 0 {
      FiveApart(k - 1);
      FiveStep(Pow2(k - 1));
    }
  }

  lemma FiveStep(p: nat)
    requires p % 5 != 0
    ensures 2 * p % 5 != 0
  {
    var q, r := p / 5, p % 5;
    if r < 3 { DivModUnique(2 * p, 5, 2 * q, 2 * r); } else { DivModUnique(2 * p, 5, 2 * q + 1, 2 * r - 5); }
  }

  lemma Quotients(n: nat, d: nat, k: nat)
    requires 0 < d && k * d <= n < (k + 1) * d
    ensures n % d == n - k * d
  {
    DivModUnique(n, d, k, n - k * d);
  }

  /** The remainder that such a run leaves is right only by accident. */
  lemma Accident(n: nat, d: nat, c: nat, p: nat, k: nat, j: nat)
    requires 0 < d < c && c == Pow2(k) && p == Pow2(j)
    requires d * p <= n < c * p <= 2 * (d * p) && n - 2 * (d * p) >= d * p - c * p
    ensures n + 2 * (c * p) - 4 * (d * p) - (c - d) == n % d <==> 2 * d == c * p
  {
    hide Pow2;
    SmallPowers(j);
    if p <= 2 { AccidentSmall(n, d, c, p, k, d * p, c * p); } else { AccidentLarge(n, d, c, p, d * p, c * p); }
  }

  lemma AccidentSmall(n: nat, d: nat, c: nat, p: nat, k: nat, t: nat, h: nat)
    requires 0 < d < c && c == Pow2(k) && 1 <= p <= 2 && t == d * p && h == c * p
    requires t <= n < h <= 2 * t && n - 2 * t >= t - h
    ensures n + 2 * h - 4 * t - (c - d) == n % d <==> 2 * d == h
  {
    hide Pow2;
    if p == 1 { AccidentOne(n, d, c); } else { AccidentTwo(n, d, c, k); }
  }

  lemma AccidentLarge(n: nat, d: nat, c: nat, p: nat, t: nat, h: nat)
    requires 0 < d < c && p >= 4 && t == d * p && h == c * p && n < h <= 2 * t && n - 2 * t >= t - h
    ensures n + 2 * h - 4 * t - (c - d) != n % d && 2 * d != h
  {
    TooLarge(n, d, c, p);
  }

  lemma SmallPowers(j: nat)
    ensures Pow2(j) == 1 || Pow2(j) == 2 || Pow2(j) >= 4
  {
    if j > 1 { assert Pow2(j) == 4 * Pow2(j - 2); }
  }

  lemma AccidentOne(n: nat, d: nat, c: nat)
    requires 0 < d <= n < c <= 2 * d
    ensures n + 2 * c - 4 * d - (c - d) == n % d <==> 2 * d == c
  {
    Quotients(n, d, 1);
  }

  lemma AccidentTwo(n: nat, d: nat, c: nat, k: nat)
    requires 0 < d < c && c == Pow2(k) && 2 * d <= n < 2 * c <= 4 * d && n >= 6 * d - 2 * c
    ensures n + 4 * c - 8 * d - (c - d) != n % d && d != c
  {
    FiveApart(k);
    hide Pow2;
    Quotients(n, d, if n < 3 * d then 2 else 3);
  }

  lemma TooLarge(n: nat, d: nat, c: nat, p: nat)
    requires 0 < d < c && p >= 4 && n < c * p <= 2 * (d * p) && n >= 3 * (d * p) - c * p
    ensures n + 2 * (c * p) - 4 * (d * p) - (c - d) >= d && 2 * d != c * p
  {
    assert 3 * d < 2 * c by { if 3 * d >= 2 * c { MulMonotone(2 * c, 3 * d, p); } }
    assert c * p - d * p == (c - d) * p;
    MulMonotone(4, p, c - d);
    MulMonotone(4, p, c);
  }

  lemma Above(n: nat, d: nat, h: nat, b: nat) returns (k: nat)
    requires h == Pow2(b) && 1 < d < h && Top(d, h) <= n < h
    ensures var r := Rounds(Start(n, d, h), h, k);
            k <= b && r.x == 0 && n / d < r.q < 2 * h && Fits(r.n, h) && (r.n == n % d <==> 2 * d == h)
  {
    hide Rounds, Grow, Pow2;
    Single(d);
    var j := GrowAbove(n, d, d, 1, 0, h);
    var t, p := Top(d, h), Pow2(j);
    MulMonotone(2, d, p);
    WrapSmall(2 * p, h);
    Exponents(j, b);
    Pow2Add(b - j, j);
    var c := Pow2(b - j);
    if c <= d { MulMonotone(c, d, p); }
    WideDiv.NextPow2(j);
    Exponents(j + 1, b);
    Rest(n, d, h, c, p, j);
    k := j + 2;
    var r := Rounds(Start(n, d, h), h, k);
    LargeQuotient(n, d, p, r.q);
    if n - 2 * t >= t - h { Accident(n, d, c, p, b - j, j); }
  }

  lemma LargeQuotient(n: nat, d: nat, p: nat, q: nat)
    requires d > 0 && n < 2 * (d * p) && q >= 2 * p
    ensures q > n / d
  {
    assert n < 2 * p * d;
    DivBelow(n, d, 2 * p);
  }

  /** A divisor of 1 is doubled into the sign bit, and so is its weight. */
  lemma AboveOne(n: nat, h: nat, b: nat, k: nat)
    requires h == Pow2(b) && 1 < h && Top(1, h) <= n < h
    ensures Rounds(Start(n, 1, h), h, k).x < 0
  {
    hide Rounds, Grow, Pow2;
    Single(1);
    var j := GrowAbove(n, 1, 1, 1, 0, h);
    var p := Pow2(j);
    Exponents(j, b);
    Pow2Monotone(j, b);
    WrapHigh(2 * p, h);
    Endless(Start(n, 1, h), h, k);
  }

  // ---------- The operators ----------

  function Abs(a: int): nat {
    if a < 0 then 0 - a else a
  }

  /** Division toward zero, as the operators promise it. */
  function TruncDiv(a: int, b: int): int
    requires b != 0
  {
    var q := Abs(a) / Abs(b);
    if (a < 0) != (b < 0) then 0 - q else q
  }

  function TruncMod(a: int, b: int): int
    requires b != 0
  {
    var r := Abs(a) % Abs(b);
    if a < 0 then 0 - r else r
  }

  /** `make_positive`: the least number stays as it is. */
  function Positive(a: int, h: nat): (r: int)
    requires Fits(a, h) && h > 0
    ensures r == if a == 0 - h then a else Abs(a)
  {
    if a < 0 then (WrapNegated(a, h); Wrap(0 - a, h)) else a
  }

  predicate Operands(a: int, b: int, h: nat) {
    h > 1 && Fits(a, h) && Fits(b, h) && b != 0
  }

  /** The run of the loops for `a` and `b`, after at most `k` rounds. */
  function Run(a: int, b: int, h: nat, k: nat): State
    requires Operands(a, b, h)
  {
    Rounds(Start(Positive(a, h), Positive(b, h), h), h, k)
  }

  /** The sign that `operator_slash` and `operator_percent` give to what the loops leave. */
  function Quotient(a: int, b: int, s: State, h: nat): int
    requires h > 0
  {
    Wrap(if (a < 0) != (b < 0) then 0 - s.q else s.q, h)
  }

  function Remainder(a: int, s: State, h: nat): int
    requires h > 0
  {
    if a < 0 then Wrap(0 - s.n, h) else s.n
  }

  /** Where the quotient is right. */
  predicate QuotientSafe(a: int, b: int, h: nat)
    requires Operands(a, b, h)
  {
    if a == 0 - h || b == 0 - h then a == b else Abs(a) < Top(Abs(b), h)
  }

  /** Where the remainder is. */
  predicate RemainderSafe(a: int, b: int, h: nat)
    requires Operands(a, b, h)
  {
    if a == 0 - h || b == 0 - h then a == b else Abs(a) < Top(Abs(b), h) || 2 * Abs(b) == h
  }

  /** Where the loops do not end. */
  predicate Endlessly(a: int, b: int, h: nat) {
    Abs(b) == 1 && a != 0 - h && h <= 2 * Abs(a)
  }

  lemma SignApart(a: int, b: int, s: State, h: nat, q: nat)
    requires q < h && s.q < 2 * h
    ensures Quotient(a, b, s, h) == (if (a < 0) != (b < 0) then 0 - q else q) <==> s.q == q
  {
    if s.q < h { WrapSmall(s.q, h); } else { WrapHigh(s.q, h); }
    if s.q <= h { WrapSmall(0 - s.q, h); } else { DivModUnique(h - s.q, 2 * h, -1, 3 * h - s.q); }
  }

  lemma RemainderApart(a: int, s: State, h: nat, r: nat)
    requires r < h && Fits(s.n, h)
    ensures Remainder(a, s, h) == (if a < 0 then 0 - r else r) <==> s.n == r
  {
    if s.n == 0 - h { WrapHigh(0 - s.n, h); } else { WrapSmall(0 - s.n, h); }
  }

  lemma {:induction false} TopOfOne(i: nat, b: nat)
    requires i < b
    ensures 2 * Top(Pow2(i), Pow2(b)) == Pow2(b)
    decreases b - i
  {
    Pow2Monotone(i, b);
    if i + 1 < b {
      Pow2Monotone(i + 1, b);
      TopOfOne(i + 1, b);
    }
  }

  /** How a run ends, if it does. */
  ghost predicate Judged(a: int, b: int, h: nat, s: State)
    requires Operands(a, b, h)
  {
    && s.x == 0
    && (Quotient(a, b, s, h) == TruncDiv(a, b) <==> QuotientSafe(a, b, h))
    && (Remainder(a, s, h) == TruncMod(a, b) <==> RemainderSafe(a, b, h))
  }

  lemma Ordinary(a: int, b: int, h: nat, e: nat) returns (k: nat)
    requires Operands(a, b, h) && h == Pow2(e) && a != 0 - h && b != 0 - h && !Endlessly(a, b, h)
    ensures k <= e && Judged(a, b, h, Run(a, b, h, k))
  {
    hide Rounds, Start, Quotient, Remainder, Pow2;
    var n, d := Abs(a), Abs(b);
    DivAtMost(n, d);
    if n < Top(d, h) {
      k := Below(n, d, h, e);
    } else {
      if d == 1 { Exponents(0, e) by { One(); } TopOfOne(0, e); One(); }
      k := Above(n, d, h, e);
    }
    var s := Run(a, b, h, k);
    SignApart(a, b, s, h, n / d);
    RemainderApart(a, s, h, n % d);
  }

  lemma One()
    ensures Pow2(0) == 1
  {
  }

  /** The least number has no positive counterpart; one round is all that is left of the loops. */
  lemma LeastNumerator(a: int, b: int, h: nat)
    requires Operands(a, b, h) && a == 0 - h && b != 0 - h
    ensures Judged(a, b, h, Run(a, b, h, 1))
  {
    var s := Run(a, b, h, 1);
    assert s == State(a, Abs(b) / 2, 0, 0) by { assert Rounds(State(a, Abs(b) / 2, 0, 0), h, 0).x == 0; }
    AtLeastOne(h, Abs(b));
    SignApart(a, b, s, h, 0);
    WrapHigh(h, h);
  }

  lemma AtLeastOne(h: nat, d: nat)
    requires 0 < d <= h
    ensures h / d >= 1
  {
  }

  lemma AtMostOne(h: nat, n: nat)
    requires 1 < h && n <= h
    ensures n / h == (if n == h then 1 else 0) && (n < h ==> n % h == n)
  {
    if n < h { ModSmall(n, h); } else { DivModUnique(n, h, 1, 0); }
  }

  lemma LeastDivisor(a: int, b: int, h: nat)
    requires Operands(a, b, h) && b == 0 - h
    ensures Judged(a, b, h, Run(a, b, h, 1))
  {
    var n := Positive(a, h);
    ModSmall(1, 2 * h);
    var s := State(Wrap(n + h, h), b / 2, 0, 1);
    assert Run(a, b, h, 1) == s by { assert Rounds(s, h, 0).x == 0; }
    AtMostOne(h, Abs(a));
    SignApart(a, b, s, h, Abs(a) / h);
    if a == b {
      WrapSmall(0, h);
      DivModUnique(h, h, 1, 0);
    } else {
      WrapHigh(n + h, h);
      RemainderApart(a, s, h, n);
    }
  }

  /** Every run either ends within the width of the number, or not at all. */
  lemma Verdict(a: int, b: int, h: nat, e: nat) returns (k: nat)
    requires Operands(a, b, h) && h == Pow2(e)
    ensures k <= e
    ensures !Endlessly(a, b, h) ==> Judged(a, b, h, Run(a, b, h, k))
    ensures Endlessly(a, b, h) ==> forall more: nat :: Run(a, b, h, more).x != 0
  {
    hide Run, Judged, Top;
    if b == 0 - h {
      LeastDivisor(a, b, h);
      k := 1;
    } else if a == 0 - h {
      LeastNumerator(a, b, h);
      k := 1;
    } else if Endlessly(a, b, h) {
      forall more: nat ensures Run(a, b, h, more).x != 0 { EndlessRun(a, b, h, e, more); }
      k := 0;
    } else {
      k := Ordinary(a, b, h, e);
    }
    if e == 0 { One(); }
  }

  lemma EndlessRun(a: int, b: int, h: nat, e: nat, k: nat)
    requires Operands(a, b, h) && h == Pow2(e) && Endlessly(a, b, h)
    ensures Run(a, b, h, k).x != 0
  {
    hide Rounds, Start;
    Exponents(0, e) by { One(); }
    TopOfOne(0, e);
    AboveOne(Abs(a), h, e, k);
  }

  // ---------- The main results ----------

  /** The division ends unless a number of at least half the range is divided by 1 or by -1. */
  lemma EndsIff(a: int, b: int, h: nat, e: nat)
    requires Operands(a, b, h) && h == Pow2(e)
    ensures (exists k: nat :: Run(a, b, h, k).x == 0) <==> !Endlessly(a, b, h)
  {
    hide Run, Endlessly;
    var k := Verdict(a, b, h, e);
  }

  /** What a run that ends leaves does not depend on how long it is watched. */
  lemma SameEnd(a: int, b: int, h: nat, j: nat, k: nat)
    requires Operands(a, b, h) && Run(a, b, h, j).x == 0 && Run(a, b, h, k).x == 0
    ensures Run(a, b, h, j) == Run(a, b, h, k)
  {
    var s := Start(Positive(a, h), Positive(b, h), h);
    if j <= k { StaysEnded(s, h, j, k); } else { StaysEnded(s, h, k, j); }
  }

  /** The quotient comes out exactly if the numerator is below the largest doubling of the divisor that
      leaves the sign bit clear; the least number can be divided by itself only. */
  lemma QuotientIff(a: int, b: int, h: nat, e: nat)
    requires Operands(a, b, h) && h == Pow2(e)
    ensures (exists k: nat :: Run(a, b, h, k).x == 0 && Quotient(a, b, Run(a, b, h, k), h) == TruncDiv(a, b))
       <==> QuotientSafe(a, b, h)
  {
    hide Run, Endlessly, Quotient, Remainder, TruncDiv, TruncMod;
    var k := Verdict(a, b, h, e);
    SafeEnds(a, b, h, e);
    forall j: nat | Run(a, b, h, j).x == 0 && !Endlessly(a, b, h) ensures Run(a, b, h, j) == Run(a, b, h, k) {
      SameEnd(a, b, h, j, k);
    }
  }

  /** The remainder also comes out if the divisor is half the range: the two errors cancel. */
  lemma RemainderIff(a: int, b: int, h: nat, e: nat)
    requires Operands(a, b, h) && h == Pow2(e) && e > 1
    ensures (exists k: nat :: Run(a, b, h, k).x == 0 && Remainder(a, Run(a, b, h, k), h) == TruncMod(a, b))
       <==> RemainderSafe(a, b, h)
  {
    hide Run, Endlessly, Quotient, Remainder, TruncDiv, TruncMod;
    var k := Verdict(a, b, h, e);
    SafeEnds(a, b, h, e);
    forall j: nat | Run(a, b, h, j).x == 0 && !Endlessly(a, b, h) ensures Run(a, b, h, j) == Run(a, b, h, k) {
      SameEnd(a, b, h, j, k);
    }
  }

  lemma SafeEnds(a: int, b: int, h: nat, e: nat)
    requires Operands(a, b, h) && h == Pow2(e)
    ensures QuotientSafe(a, b, h) ==> !Endlessly(a, b, h)
    ensures e > 1 && RemainderSafe(a, b, h) ==> !Endlessly(a, b, h)
  {
    Exponents(0, e) by { One(); }
    TopOfOne(0, e);
    if e > 1 { Pow2Monotone(2, e); }
  }

  /** Numbers that the operators cannot divide: half the range by 1, and the largest number by 2. */
  lemma LargeNumerators(half: nat, most: nat, h: nat, e: nat)
    requires h == Pow2(e) == 2 * half && half > 1 && most == h - 1
    ensures forall k: nat :: Run(half, 1, h, k).x != 0
    ensures forall k: nat | Run(most, 2, h, k).x == 0 :: Quotient(most, 2, Run(most, 2, h, k), h) != TruncDiv(most, 2)
  {
    hide Run, Quotient, TruncDiv;
    EndsIff(half, 1, h, e);
    Two();
    Exponents(1, e);
    TopOfOne(1, e);
    QuotientIff(most, 2, h, e);
  }
}
