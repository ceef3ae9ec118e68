/** Shift-and-subtract division of unsigned wide integers. */
module WideDiv {
  import opened Arith
  import Bits
  import opened WideWords
  import opened WideAdd
  import opened WideShift

  lemma {:induction false} ItemwiseAnd(a: seq<nat>, b: seq<nat>, c: seq<nat>)
    requires Wide(a) && Wide(b) && |a| == |b| == |c| && forall i | 0 <= i < |a| :: c[i] == Bits.And(a[i], b[i])
    ensures Wide(c) && Value(c) == Bits.And(Value(a), Value(b))
  {
    hide Bits.And, Bits.Or, Pow2;
    BaseIsPow2();
    if |a| == 0 {
      Bits.ZeroOps();
    } else {
      forall i | 0 <= i < |c| ensures c[i] < BASE { Bits.Width(a[i], b[i], 64); }
      ItemwiseAnd(a[1..], b[1..], c[1..]);
      Bits.SplitOps(a[0], b[0], Value(a[1..]), Value(b[1..]), 64);
    }
  }

  lemma {:induction false} ItemwiseOr(a: seq<nat>, b: seq<nat>, c: seq<nat>)
    requires Wide(a) && Wide(b) && |a| == |b| == |c| && forall i | 0 <= i < |a| :: c[i] == Bits.Or(a[i], b[i])
    ensures Wide(c) && Value(c) == Bits.Or(Value(a), Value(b))
  {
    hide Bits.And, Bits.Or, Pow2;
    BaseIsPow2();
    if |a| == 0 {
      Bits.ZeroOps();
    } else {
      forall i | 0 <= i < |c| ensures c[i] < BASE { Bits.Width(a[i], b[i], 64); }
      ItemwiseOr(a[1..], b[1..], c[1..]);
      Bits.SplitOps(a[0], b[0], Value(a[1..]), Value(b[1..]), 64);
    }
  }

  /** `operator_amp` */
  method Amp(lhs: seq<nat>, rhs: seq<nat>) returns (res: seq<nat>)
    requires Wide(lhs) && Wide(rhs) && |rhs| <= |lhs|
    ensures Wide(res) && |res| == |lhs| && Value(res) == Bits.And(Value(lhs), Value(rhs))
  {
    hide Value, Bits.And;
    res := seq(|lhs|, i => 0);
    for i := 0 to |lhs|
      invariant |res| == |lhs| && forall j | 0 <= j < i :: res[j] == Bits.And(lhs[j], Item(rhs, j))
    {
      res := res[i := Bits.And(lhs[i], Item(rhs, i))];
    }
    Reading(rhs, |lhs|);
    ItemwiseAnd(lhs, Resize(rhs, |lhs|), res);
  }

  /** `operator_pipe` */
  method Pipe(lhs: seq<nat>, rhs: seq<nat>) returns (res: seq<nat>)
    requires Wide(lhs) && Wide(rhs) && |rhs| <= |lhs|
    ensures Wide(res) && |res| == |lhs| && Value(res) == Bits.Or(Value(lhs), Value(rhs))
  {
    hide Value, Bits.Or;
    res := seq(|lhs|, i => 0);
    for i := 0 to |lhs|
      invariant |res| == |lhs| && forall j | 0 <= j < i :: res[j] == Bits.Or(lhs[j], Item(rhs, j))
    {
      res := res[i := Bits.Or(lhs[i], Item(rhs, i))];
    }
    Reading(rhs, |lhs|);
    ItemwiseOr(lhs, Resize(rhs, |lhs|), res);
  }

  lemma {:induction false} ZeroItems(a: seq<nat>)
    ensures Value(a) == 0 <==> forall i | 0 <= i < |a| :: a[i] == 0
  {
    if |a| > 0 {
      ZeroItems(a[1..]);
      assert forall i | 0 < i < |a| :: a[i] == a[1..][i - 1];
    }
  }

  method IsZero(x: seq<nat>) returns (r: bool)
    ensures r <==> Value(x) == 0
  {
    ZeroItems(x);
    for i := 0 to |x|
      invariant forall j | 0 <= j < i :: x[j] == 0
    {
      if x[i] != 0 { return false; }
    }
    return true;
  }

  /** Whether the top bit is clear: the number can be doubled. */
  method TopClear(d: seq<nat>) returns (r: bool)
    requires Wide(d) && |d| > 0
    ensures r <==> 2 * Value(d) < Size(|d|)
  {
    hide Value, Size, Pow2, Bits.And;
    var n := 64 * |d| - 1;
    var top := ShiftRight(d, n, false);
    var bit := Amp(top, [1]);
    r := Equal(bit, [0]);
    ValueFits(d);
    SizeIsPow2(|d|);
    TopBit(Value(d), n);
    One();
  }

  lemma One()
    ensures Value([1]) == 1 && Value([0]) == 0 && Pow2(0) == 1
  {
  }

  lemma TopBit(v: nat, n: nat)
    requires v < Pow2(n + 1)
    ensures Bits.And(v / Pow2(n), 1) == 0 <==> 2 * v < Pow2(n + 1)
  {
    var p := Pow2(n);
    if v < p {
      ModSmall(v, p);
    } else {
      DivModUnique(v, p, 1, v - p);
      assert Bits.And(1, 1) == 1 + 2 * Bits.And(0, 0);
    }
  }

  // ---------- Division ----------

  datatype Division = DivideByZero | Divided(quotient: seq<nat>, remainder: seq<nat>)

  /** The divisor after `j` doublings, and the power that counts them. */
  ghost predicate Doubled(d0: nat, d: nat, x: nat, j: nat) {
    x == Pow2(j) && d == d0 * Pow2(j)
  }

  lemma DoubleFits(d0: nat, d: nat, x: nat, j: nat, bits: nat)
    requires d0 > 0 && Doubled(d0, d, x, j) && 2 * d < Pow2(bits)
    ensures j + 1 < bits && 2 * x < Pow2(bits)
    ensures Doubled(d0, d * Pow2(1) % Pow2(bits), x * Pow2(1) % Pow2(bits), j + 1)
  {
    MulAtLeast(d0, x);
    assert Pow2(1) == 2;
    ModSmall(2 * d, Pow2(bits));
    ModSmall(2 * x, Pow2(bits));
    assert d0 * (2 * x) == 2 * (d0 * x);
    if j + 1 >= bits { Pow2Monotone(bits, j + 1); }
  }

  /** What the second loop keeps: the quotient so far is a multiple of all that is still to come. */
  ghost predicate Dividing(n0: nat, d0: nat, n: nat, d: nat, x: nat, q: nat, j: nat) {
    if x == 0 then n0 == q * d0 + n && n < d0
    else Doubled(d0, d, x, j) && n < 2 * d && q % (2 * x) == 0 && n0 == q * d0 + n
  }

  lemma Halve(n0: nat, d0: nat, n: nat, d: nat, x: nat, q: nat, j: nat)
    requires x > 0 && Doubled(d0, d, x, j) && n < d && q % x == 0 && n0 == q * d0 + n
    ensures Dividing(n0, d0, n, d / Pow2(1), x / Pow2(1), q, if j > 0 then j - 1 else 0)
    ensures j == 0 ==> x / Pow2(1) == 0
  {
    assert Pow2(1) == 2;
    if j > 0 {
      var h := Pow2(j - 1);
      assert x == 2 * h && d == 2 * (d0 * h) by { assert d0 * (2 * h) == 2 * (d0 * h); }
    } else {
      assert d0 * 1 == d0;
    }
  }

  lemma Subtract(n0: nat, d0: nat, n: nat, d: nat, x: nat, q: nat, j: nat)
    requires x > 0 && Dividing(n0, d0, n, d, x, q, j) && d <= n
    ensures Bits.Or(q, x) == q + x && (q + x) % x == 0 && n0 == (q + x) * d0 + (n - d) && n - d < d
  {
    hide Bits.Or, Pow2;
    NextPow2(j);
    Bits.OrIsSum(q, x, j + 1);
    KeepMultiple(q, x);
    Spread(q, x, d0);
  }

  /** Where a round stands before it halves. */
  lemma Round(n0: nat, d0: nat, n: nat, d: nat, x: nat, q: nat, j: nat)
    requires x > 0 && Dividing(n0, d0, n, d, x, q, j)
    ensures Doubled(d0, d, x, j)
    ensures d <= n ==> Bits.Or(q, x) % x == 0 && n0 == Bits.Or(q, x) * d0 + (n - d) && n - d < d
    ensures d > n ==> q % x == 0 && n0 == q * d0 + n
  {
    hide Bits.Or, Doubled;
    if d <= n { Subtract(n0, d0, n, d, x, q, j); } else { KeepMultiple(q, x); }
  }

  lemma NextPow2(j: nat)
    ensures Pow2(j + 1) == 2 * Pow2(j)
  {
  }

  lemma Spread(q: nat, x: nat, d: nat)
    ensures (q + x) * d == q * d + d * x
  {
  }

  lemma KeepMultiple(q: nat, x: nat)
    requires x > 0 && q % (2 * x) == 0
    ensures q % x == 0 && (q + x) % x == 0
  {
    var k := q / (2 * x);
    assert q == k * (2 * x) == 2 * k * x;
    MultipleMod(2 * k, x);
    assert q + x == (2 * k + 1) * x;
    MultipleMod(2 * k + 1, x);
  }

  lemma DivideStarts(n0: nat, d0: nat, d: nat, x: nat, j: nat)
    requires d0 > 0 && Doubled(d0, d, x, j) && n0 < 2 * d
    ensures x > 0 && Dividing(n0, d0, n0, d, x, 0, j)
  {
    ModSmall(0, 2 * x);
    assert 0 * d0 == 0;
  }

  /** `divide`: doubles the divisor while it fits, then subtracts on the way back. */
  method Divide(numerator: seq<nat>, denominator: seq<nat>) returns (r: Division)
    requires Wide(numerator) && Wide(denominator) && |numerator| == |denominator| > 0
    ensures r.DivideByZero? <==> Value(denominator) == 0
    ensures r.Divided? ==> Wide(r.quotient) && Wide(r.remainder) && |r.quotient| == |r.remainder| == |numerator|
    ensures r.Divided? ==> Value(numerator) == Value(r.quotient) * Value(denominator) + Value(r.remainder)
    ensures r.Divided? ==> Value(r.remainder) < Value(denominator)
  {
    hide Value, Size, Pow2, Doubled, Dividing, Bits.Or, Bits.And;
    var zero := IsZero(denominator);
    if zero { return DivideByZero; }
    var count := |numerator|;
    var n, d := numerator, denominator;
    ghost var n0, d0, j: nat := Value(n), Value(d), 0;
    var x := Resize([1], count);
    var quotient := Resize([0], count);
    StartValues(count, d0);
    SizeIsPow2(count);
    var big := More(d, n);
    var clear := TopClear(d);
    while !big && clear
      invariant Wide(d) && Wide(x) && |d| == |x| == count
      invariant Doubled(d0, Value(d), Value(x), j) && j < 64 * count
      invariant big <==> Value(d) > Value(n)
      invariant clear <==> 2 * Value(d) < Size(count)
      decreases 64 * count - j
    {
      DoubleFits(d0, Value(d), Value(x), j, 64 * count);
      x := ShiftLeft(x, 1);
      d := ShiftLeft(d, 1);
      j := j + 1;
      big := More(d, n);
      clear := TopClear(d);
    }
    ValueFits(n);
    DivideStarts(n0, d0, Value(d), Value(x), j);
    var done := Equal(x, [0]);
    One();
    while !done
      invariant Wide(n) && Wide(d) && Wide(x) && Wide(quotient) && |n| == |d| == |x| == |quotient| == count
      invariant Dividing(n0, d0, Value(n), Value(d), Value(x), Value(quotient), j)
      invariant done <==> Value(x) == 0
      decreases if done then 0 else j + 1
    {
      Round(n0, d0, Value(n), Value(d), Value(x), Value(quotient), j);
      big := More(d, n);
      if !big {
        ValueFits(n);
        ModSmall(Value(n) - Value(d), Size(count));
        n := Minus(n, d);
        quotient := Pipe(quotient, x);
      }
      Halve(n0, d0, Value(n), Value(d), Value(x), Value(quotient), j);
      x := ShiftRight(x, 1, false);
      d := ShiftRight(d, 1, false);
      j := if j > 0 then j - 1 else 0;
      done := Equal(x, [0]);
    }
    Ended(n0, d0, Value(n), Value(d), Value(x), Value(quotient), j);
    r := Divided(quotient, n);
  }

  lemma StartValues(count: nat, d0: nat)
    requires count > 0
    ensures Wide(Resize([1], count)) && Wide(Resize([0], count))
    ensures Value(Resize([1], count)) == 1 && Value(Resize([0], count)) == 0 && Doubled(d0, d0, 1, 0)
  {
    One();
    Reading([1], count);
    Reading([0], count);
  }

  lemma Ended(n0: nat, d0: nat, n: nat, d: nat, x: nat, q: nat, j: nat)
    requires x == 0 && Dividing(n0, d0, n, d, x, q, j)
    ensures n0 == q * d0 + n && n < d0
  {
  }
}
