/** Division of signed wide integers, item by item, as the loops on numbers that it amounts to. */
module WideSignedDiv {
  import opened Arith
  import Bits
  import opened WideWords
  import opened WideAdd
  import opened WideShift
  import opened WideDiv
  import opened SignedDivision

  /** Half the range of `n` items. */
  ghost function Half(n: nat): nat
    requires n > 0
  {
    Pow2(64 * n - 1)
  }

  lemma HalfMeans(n: nat)
    requires n > 0
    ensures Size(n) == 2 * Half(n) && Half(n) > 1
  {
    SizeIsPow2(n);
    Pow2Monotone(1, 64 * n - 1);
  }

  /** The signed number of a row whose value is known modulo 2^Bits. */
  lemma SignedOf(a: seq<nat>, v: int)
    requires Wide(a) && |a| > 0 && Cong(Value(a), v, Size(|a|))
    ensures Signed(a) == Wrap(v, Half(|a|)) && Fits(Signed(a), Half(|a|))
  {
    hide Value, Size, Signed, Wide, Half, IsNegative;
    HalfMeans(|a|);
    var h := Half(|a|);
    SignedRange(a);
    var k := CongMultiple(v, Signed(a), 2 * h);
    DivModUnique(v + h, 2 * h, k, Signed(a) + h);
  }

  /** `shift_left` by one. */
  method Double(a: seq<nat>) returns (r: seq<nat>)
    requires Wide(a) && |a| > 0
    ensures Wide(r) && |r| == |a| && Signed(r) == Wrap(2 * Signed(a), Half(|a|))
  {
    hide Value, Size, Signed, Half, Pow2, IsNegative;
    Two();
    r := ShiftLeft(a, 1);
    SignedRange(a);
    CongAdd(Signed(a), Value(a), Signed(a), Value(a), Size(|a|));
    CongMod(2 * Value(a), Size(|a|));
    SignedOf(r, 2 * Signed(a));
  }

  /** `shift_right` by one keeps the sign. */
  method Halved(a: seq<nat>) returns (r: seq<nat>)
    requires Wide(a) && |a| > 0
    ensures Wide(r) && |r| == |a| && Signed(r) == Signed(a) / 2
  {
    hide Value, Size, Pow2, IsNegative;
    Two();
    r := ShiftRight(a, 1, true);
    NegativeIff(a);
    NegativeIff(r);
  }

  /** `operator_minus` of two signed numbers. */
  method Difference(a: seq<nat>, b: seq<nat>) returns (r: seq<nat>)
    requires Wide(a) && Wide(b) && |a| == |b| > 0
    ensures Wide(r) && |r| == |a| && Signed(r) == Wrap(Signed(a) - Signed(b), Half(|a|))
  {
    hide Value, Size, Signed, Half, IsNegative;
    r := Minus(a, b);
    SignedRange(a);
    SignedRange(b);
    CongAdd(Signed(a), Value(a), Signed(b), Value(b), Size(|a|));
    CongMod(Value(a) - Value(b), Size(|a|));
    SignedOf(r, Signed(a) - Signed(b));
  }

  method Negated(a: seq<nat>, ghost v: int) returns (r: seq<nat>)
    requires Wide(a) && |a| > 0 && Cong(v, Value(a), Size(|a|))
    ensures Wide(r) && |r| == |a| && Signed(r) == Wrap(0 - v, Half(|a|))
  {
    hide Value, Size, Signed, Half, IsNegative;
    r := UnaryMinus(a);
    CongAdd(0, 0, v, Value(a), Size(|a|));
    CongMod(0 - Value(a), Size(|a|));
    SignedOf(r, 0 - v);
  }

  /** Whether the sign bit is clear, as the guard of the first loop asks: the shift fills in more ones. */
  method SignClear(d: seq<nat>) returns (r: bool)
    requires Wide(d) && |d| > 0
    ensures r <==> Signed(d) >= 0
  {
    hide Value, Size, Pow2, Bits.And, IsNegative, Signed, Right;
    var n := 64 * |d| - 1;
    var top := ShiftRight(d, n, true);
    var bit := Amp(top, [1]);
    r := Equal(bit, [0]);
    WideDiv.One();
    SignedRange(d);
    TopValue(d, n, Value(top));
  }

  lemma TopValue(d: seq<nat>, n: nat, v: nat)
    requires Wide(d) && |d| > 0 && n == 64 * |d| - 1 && v == Right(d, n, true)
    ensures Bits.And(v, 1) == 0 <==> !IsNegative(d)
  {
    hide Value, Size, Pow2, Bits.And, IsNegative;
    NegativeIff(d);
    HalfMeans(|d|);
    Two();
    Bits.AndMask(v, 1);
    if IsNegative(d) {
      DivModUnique(Value(d), Pow2(n), 1, Value(d) - Pow2(n));
      HalfMeans(FillEnd(|d|, n / 64));
    } else {
      ModSmall(Value(d), Pow2(n));
    }
  }

  // ---------- The loops ----------

  /** The four numbers that the loops change. */
  datatype Items = Items(n: seq<nat>, d: seq<nat>, x: seq<nat>, q: seq<nat>) {
    ghost predicate Ok(count: nat) {
      && Wide(n) && Wide(d) && Wide(x) && Wide(q)
      && |n| == |d| == |x| == |q| == count > 0
    }

    ghost function Read(): State {
      State(Signed(n), Signed(d), Signed(x), Value(q))
    }
  }

  lemma PatternOf(x: seq<nat>)
    requires Wide(x) && |x| > 0
    ensures Value(x) == Signed(x) % (2 * Half(|x|)) && (Value(x) == 0 <==> Signed(x) == 0)
  {
    hide Size, Half, IsNegative;
    HalfMeans(|x|);
    NegativeIff(x);
    SignedRange(x);
    ModSmall(Value(x), Size(|x|));
  }

  /** One round of the second loop. */
  method OneRound(t: Items) returns (u: Items)
    requires t.Ok(|t.n|)
    ensures u.Ok(|t.n|) && u.Read() == Step(t.Read(), Half(|t.n|))
  {
    hide Value, Size, Signed, Half, Pow2, Bits.Or, IsNegative, Wrap;
    HalfMeans(|t.n|);
    PatternOf(t.x);
    var n, q := t.n, t.q;
    var big := SignedMore(t.d, t.n, IsNegative(t.n));
    if !big {
      n := Difference(t.n, t.d);
      q := Pipe(t.q, t.x);
    }
    var x := Halved(t.x);
    var d := Halved(t.d);
    u := Items(n, d, x, q);
  }

  lemma StartSigned(count: nat)
    requires count > 0
    ensures Wide(Resize([1], count)) && Wide(Resize([0], count))
    ensures Signed(Resize([1], count)) == 1 && Value(Resize([0], count)) == 0
  {
    hide Pow2, Half, IsNegative;
    HalfMeans(count);
    StartValues(count, 1);
    NegativeIff(Resize([1], count));
  }

  /** `divide` up to the end of its first loop. */
  method Grown(numerator: seq<nat>, denominator: seq<nat>) returns (u: Items)
    requires Wide(numerator) && Wide(denominator) && |numerator| == |denominator| > 0 && Signed(denominator) != 0
    ensures Fits(Signed(denominator), Half(|numerator|)) && Half(|numerator|) > 0
    ensures u.Ok(|numerator|) && u.Read() == Start(Signed(numerator), Signed(denominator), Half(|numerator|))
  {
    hide Value, Size, Signed, Pow2, IsNegative, Half, Wrap;
    var count := |numerator|;
    ghost var h := Half(count);
    HalfMeans(count);
    InRange(denominator);
    StartSigned(count);
    var n, d := numerator, denominator;
    var x := Resize([1], count);
    var big := SignedMore(d, n, IsNegative(n));
    var clear := SignClear(d);
    while !big && clear
      invariant Wide(d) && Wide(x) && |d| == |x| == count && Signed(d) != 0 && Fits(Signed(d), h)
      invariant Grow(Signed(n), Signed(d), Signed(x), h) == Grow(Signed(n), Signed(denominator), 1, h)
      invariant big <==> Signed(d) > Signed(n)
      invariant clear <==> Signed(d) >= 0
      decreases if Signed(d) > 0 then h - Signed(d) else 0
    {
      WrapTwice(Signed(d), h);
      x := Double(x);
      d := Double(d);
      big := SignedMore(d, n, IsNegative(n));
      clear := SignClear(d);
    }
    u := Items(n, d, x, Resize([0], count));
  }

  lemma InRange(a: seq<nat>)
    requires Wide(a) && |a| > 0
    ensures Fits(Signed(a), Half(|a|))
  {
    HalfMeans(|a|);
    SignedRange(a);
  }

  /** `divide`, watched for as many rounds as the number has bits. */
  method Watch(numerator: seq<nat>, denominator: seq<nat>) returns (ended: bool, u: Items)
    requires Wide(numerator) && Wide(denominator) && |numerator| == |denominator| > 0 && Signed(denominator) != 0
    ensures Fits(Signed(denominator), Half(|numerator|)) && Half(|numerator|) > 0
    ensures u.Ok(|numerator|) && (ended <==> u.Read().x == 0)
    ensures var h := Half(|numerator|);
            u.Read() == Rounds(Start(Signed(numerator), Signed(denominator), h), h, 64 * |numerator|)
  {
    hide Value, Size, Signed, Pow2, IsNegative, Half, Start, Step;
    var count := |numerator|;
    ghost var h := Half(count);
    u := Grown(numerator, denominator);
    ghost var s := u.Read();
    WideDiv.One();
    PatternOf(u.x);
    ended := Equal(u.x, [0]);
    for i := 0 to 64 * count
      invariant u.Ok(count) && u.Read() == Rounds(s, h, i) && (ended <==> u.Read().x == 0)
    {
      OneMore(s, h, i);
      if !ended {
        u := OneRound(u);
        PatternOf(u.x);
        ended := Equal(u.x, [0]);
      }
    }
  }

  // ---------- The operators ----------

  datatype Outcome = ByZero | NeverEnds | Result(value: seq<nat>)

  method MakePositive(a: seq<nat>) returns (r: seq<nat>)
    requires Wide(a) && |a| > 0
    ensures Fits(Signed(a), Half(|a|)) && Half(|a|) > 0
    ensures Wide(r) && |r| == |a| && Signed(r) == Positive(Signed(a), Half(|a|))
  {
    hide Value, Size, Signed, Pow2, IsNegative, Half, Wrap;
    HalfMeans(|a|);
    InRange(a);
    SignedRange(a);
    r := a;
    if IsNegative(a) { r := Negated(a, Signed(a)); }
  }

  lemma SameOperands(lhs: seq<nat>, rhs: seq<nat>)
    requires Wide(lhs) && Wide(rhs) && |lhs| == |rhs| > 0
    ensures Half(|lhs|) > 1 && Fits(Signed(lhs), Half(|lhs|)) && Fits(Signed(rhs), Half(|lhs|))
    ensures Value(rhs) == 0 <==> Signed(rhs) == 0
  {
    HalfMeans(|lhs|);
    InRange(lhs);
    InRange(rhs);
    PatternOf(rhs);
  }

  /** `operator_slash` of signed numbers of the same width. */
  method Slash(lhs: seq<nat>, rhs: seq<nat>) returns (r: Outcome)
    requires Wide(lhs) && Wide(rhs) && |lhs| == |rhs| > 0
    ensures r.ByZero? <==> Signed(rhs) == 0
    ensures Signed(rhs) != 0 ==> Operands(Signed(lhs), Signed(rhs), Half(|lhs|))
    ensures r.NeverEnds? <==> Signed(rhs) != 0 && Endlessly(Signed(lhs), Signed(rhs), Half(|lhs|))
    ensures r.NeverEnds? ==> forall k: nat :: Run(Signed(lhs), Signed(rhs), Half(|lhs|), k).x != 0
    ensures r.Result? ==> Wide(r.value) && |r.value| == |lhs|
    ensures r.Result? ==>
      Signed(r.value) == Quotient(Signed(lhs), Signed(rhs), Run(Signed(lhs), Signed(rhs), Half(|lhs|), 64 * |lhs|), Half(|lhs|))
    ensures r.Result? ==>
      (Signed(r.value) == TruncDiv(Signed(lhs), Signed(rhs)) <==> QuotientSafe(Signed(lhs), Signed(rhs), Half(|lhs|)))
  {
    hide Value, Size, Signed, Pow2, IsNegative, Half, Wrap, Start, Rounds, Endlessly, QuotientSafe, TruncDiv, TruncMod, RemainderSafe;
    SameOperands(lhs, rhs);
    var zero := IsZero(rhs);
    if zero { return ByZero; }
    ghost var a, b, h := Signed(lhs), Signed(rhs), Half(|lhs|);
    var numerator := MakePositive(lhs);
    var denominator := MakePositive(rhs);
    var ended, u := Watch(numerator, denominator);
    Watched(a, b, |lhs|);
    if !ended { return NeverEnds; }
    SignedRange(lhs);
    SignedRange(rhs);
    var value := u.q;
    if IsNegative(rhs) != IsNegative(lhs) {
      value := Negated(u.q, Value(u.q)) by { Same(Value(u.q), |lhs|); }
    } else {
      SignedOf(value, Value(u.q)) by { Same(Value(u.q), |lhs|); }
    }
    r := Result(value);
  }

  lemma Same(v: int, count: nat)
    ensures Cong(v, v, Size(count))
  {
  }

  /** Watching for as many rounds as there are bits is enough to know. */
  lemma Watched(a: int, b: int, count: nat)
    requires count > 0 && Operands(a, b, Half(count))
    ensures var s := Run(a, b, Half(count), 64 * count);
            && (s.x == 0 <==> !Endlessly(a, b, Half(count)))
            && (s.x == 0 ==> Judged(a, b, Half(count), s))
            && (s.x != 0 ==> forall k: nat :: Run(a, b, Half(count), k).x != 0)
  {
    hide Pow2, Judged, Endlessly, Rounds, Start;
    var h := Half(count);
    var k := Verdict(a, b, h, 64 * count - 1);
    if !Endlessly(a, b, h) {
      assert Run(a, b, h, k).x == 0 by { JudgedEnds(a, b, h, Run(a, b, h, k)); }
      StaysEnded(Start(Positive(a, h), Positive(b, h), h), h, k, 64 * count);
    }
  }

  lemma JudgedEnds(a: int, b: int, h: nat, s: State)
    requires Operands(a, b, h) && Judged(a, b, h, s)
    ensures s.x == 0
  {
  }

  /** `operator_percent` of signed numbers of the same width. */
  method Percent(lhs: seq<nat>, rhs: seq<nat>) returns (r: Outcome)
    requires Wide(lhs) && Wide(rhs) && |lhs| == |rhs| > 0
    ensures r.ByZero? <==> Signed(rhs) == 0
    ensures Signed(rhs) != 0 ==> Operands(Signed(lhs), Signed(rhs), Half(|lhs|))
    ensures r.NeverEnds? <==> Signed(rhs) != 0 && Endlessly(Signed(lhs), Signed(rhs), Half(|lhs|))
    ensures r.NeverEnds? ==> forall k: nat :: Run(Signed(lhs), Signed(rhs), Half(|lhs|), k).x != 0
    ensures r.Result? ==> Wide(r.value) && |r.value| == |lhs|
    ensures r.Result? ==>
      Signed(r.value) == Remainder(Signed(lhs), Run(Signed(lhs), Signed(rhs), Half(|lhs|), 64 * |lhs|), Half(|lhs|))
    ensures r.Result? ==>
      (Signed(r.value) == TruncMod(Signed(lhs), Signed(rhs)) <==> RemainderSafe(Signed(lhs), Signed(rhs), Half(|lhs|)))
  {
    hide Value, Size, Signed, Pow2, IsNegative, Half, Wrap, Start, Rounds, Endlessly, QuotientSafe, TruncDiv, TruncMod, RemainderSafe;
    SameOperands(lhs, rhs);
    var zero := IsZero(rhs);
    if zero { return ByZero; }
    ghost var a, b, h := Signed(lhs), Signed(rhs), Half(|lhs|);
    var numerator := MakePositive(lhs);
    var denominator := MakePositive(rhs);
    var ended, u := Watch(numerator, denominator);
    Watched(a, b, |lhs|);
    if !ended { return NeverEnds; }
    SignedRange(lhs);
    var value := u.n;
    if IsNegative(lhs) { value := Negated(u.n, Signed(u.n)) by { SignedRange(u.n); } }
    r := Result(value);
  }
}
