/** Addition and subtraction with deferred carries, negation and comparison of wide integers. */
module WideAdd {
  import opened Arith
  import opened WideWords

  /** One column of an addition: what is carried in and out. */
  lemma Column(p: nat, l: nat, r: nat, c: nat, x: nat, c': nat)
    requires l + r + c == x + BASE * c'
    ensures p * l + p * r + p * c == p * x + BASE * p * c'
  {
    assert p * (l + r + c) == p * l + p * r + p * c;
    assert p * (x + BASE * c') == p * x + p * (BASE * c');
    assert p * (BASE * c') == BASE * p * c';
  }

  /** The first `i` columns are done: their carry stands for what they cannot hold. */
  ghost predicate Summed(lhs: seq<nat>, rhs: seq<nat>, res: seq<nat>, i: nat, carry: bool)
    requires i <= |lhs| && i <= |rhs| && i <= |res|
  {
    Value(lhs[..i]) + Value(rhs[..i]) == Value(res[..i]) + Size(i) * AsNat(carry)
  }

  lemma SumColumn(lhs: seq<nat>, rhs: seq<nat>, res: seq<nat>, i: nat, carry: bool, carry': bool)
    requires i < |lhs| && i < |rhs| && i < |res|
    requires Summed(lhs, rhs, res, i, carry)
    requires lhs[i] + rhs[i] + AsNat(carry) == res[i] + BASE * AsNat(carry')
    ensures Summed(lhs, rhs, res, i + 1, carry')
  {
    hide Value;
    ValueTake(lhs, i);
    ValueTake(rhs, i);
    ValueTake(res, i);
    Column(Size(i), lhs[i], rhs[i], AsNat(carry), res[i], AsNat(carry'));
  }

  lemma Commute(a: int, b: int)
    ensures a * b == b * a
  {
  }

  lemma SumDone(lhs: seq<nat>, rhs: seq<nat>, res: seq<nat>, carry: bool, x: int)
    requires Wide(res) && |lhs| == |rhs| == |res|
    requires Summed(lhs, rhs, res, |res|, carry) && Cong(x, Value(rhs), Size(|res|))
    ensures Value(res) == (Value(lhs) + x) % Size(|res|)
  {
    hide Value, Size, Cong;
    var n := |res|;
    assert lhs[..n] == lhs && rhs[..n] == rhs && res[..n] == res;
    ValueFits(res);
    Commute(Size(n), AsNat(carry));
    ReduceSum(Value(lhs), x, Value(rhs), Value(res), AsNat(carry), Size(n));
  }

  lemma ResizeCong(x: seq<nat>, n: nat)
    requires Wide(x)
    ensures |Resize(x, n)| == n && Wide(Resize(x, n)) && Cong(Value(x), Value(Resize(x, n)), Size(n))
  {
    ResizeValue(x, n);
    CongMod(Value(x), Size(n));
  }

  /** No columns: no carry. */
  lemma SumStarts(lhs: seq<nat>, rhs: seq<nat>, res: seq<nat>)
    ensures Summed(lhs, rhs, res, 0, false)
  {
  }

  /** `res` holds every column of `lhs + r`, the flags what does not fit. */
  ghost predicate Columns(lhs: seq<nat>, r: seq<nat>, res: seq<nat>, flags: seq<bool>) {
    && |lhs| == |r| == |res| == |flags|
    && forall j | 0 <= j < |res| :: lhs[j] + r[j] == res[j] + BASE * AsNat(flags[j])
  }

  /** The first loop of `plus`: every column on its own. */
  method AddColumns(lhs: seq<nat>, rhs: seq<nat>) returns (res: seq<nat>, overflows: seq<bool>)
    requires Wide(lhs) && Wide(rhs)
    ensures Wide(res) && Columns(lhs, Resize(rhs, |lhs|), res, overflows)
  {
    var n := |lhs|;
    ghost var r := Resize(rhs, n);
    var opItems := if n < |rhs| then n else |rhs|;
    res := lhs;
    overflows := seq(n, i => false);
    for i := 0 to opItems
      invariant |res| == n == |overflows|
      invariant forall j | 0 <= j < n :: res[j] < BASE
      invariant forall j | 0 <= j < i :: lhs[j] + r[j] == res[j] + BASE * AsNat(overflows[j])
      invariant forall j | i <= j < n :: res[j] == lhs[j] && !overflows[j]
    {
      res := res[i := (res[i] + rhs[i]) % BASE];
      overflows := overflows[i := res[i] < rhs[i]];
    }
  }

  /** Column sums first, all carries afterwards. */
  method Plus(lhs: seq<nat>, rhs: seq<nat>) returns (res: seq<nat>)
    requires Wide(lhs) && Wide(rhs) && |lhs| > 0
    ensures Wide(res) && |res| == |lhs| && Value(res) == (Value(lhs) + Value(rhs)) % Size(|lhs|)
  {
    hide Value, Size, Cong, Summed, Resize;
    var n := |lhs|;
    ghost var r := Resize(rhs, n);
    ResizeCong(rhs, n);
    var overflows;
    res, overflows := AddColumns(lhs, rhs);
    ghost var columns, flags := res, overflows;
    SumStarts(lhs, r, res);
    SumColumn(lhs, r, res, 0, false, overflows[0]);
    for i := 1 to n
      invariant |res| == n == |overflows|
      invariant forall j | 0 <= j < n :: res[j] < BASE
      invariant forall j | i <= j < n :: res[j] == columns[j] && overflows[j] == flags[j]
      invariant Summed(lhs, r, res, i, overflows[i - 1])
    {
      ghost var before := res;
      if overflows[i - 1] {
        res := res[i := (res[i] + 1) % BASE];
        if res[i] == 0 {
          overflows := overflows[i := true];
        }
      }
      SameSum(lhs, r, before, res, i, overflows[i - 1]);
      SumColumn(lhs, r, res, i, overflows[i - 1], overflows[i]);
    }
    SumDone(lhs, r, res, overflows[n - 1], Value(rhs));
  }

  lemma SameSum(lhs: seq<nat>, rhs: seq<nat>, res: seq<nat>, res': seq<nat>, i: nat, carry: bool)
    requires i <= |lhs| && i <= |rhs| && i <= |res| && i <= |res'| && res[..i] == res'[..i]
    requires Summed(lhs, rhs, res, i, carry)
    ensures Summed(lhs, rhs, res', i, carry)
  {
  }

  /** The first loop of `minus`. A borrow is a carry of `res + rhs == lhs`. */
  method SubtractColumns(lhs: seq<nat>, rhs: seq<nat>) returns (res: seq<nat>, underflows: seq<bool>)
    requires Wide(lhs) && Wide(rhs)
    ensures Wide(res) && Columns(res, Resize(rhs, |lhs|), lhs, underflows)
  {
    var n := |lhs|;
    ghost var r := Resize(rhs, n);
    var opItems := if n < |rhs| then n else |rhs|;
    res := lhs;
    underflows := seq(n, i => false);
    for i := 0 to opItems
      invariant |res| == n == |underflows|
      invariant forall j | 0 <= j < n :: res[j] < BASE
      invariant forall j | 0 <= j < i :: res[j] + r[j] == lhs[j] + BASE * AsNat(underflows[j])
      invariant forall j | i <= j < n :: res[j] == lhs[j] && !underflows[j]
    {
      underflows := underflows[i := res[i] < rhs[i]];
      res := res[i := (res[i] - rhs[i]) % BASE];
    }
  }

  /** Column differences first, all borrows afterwards. */
  method Minus(lhs: seq<nat>, rhs: seq<nat>) returns (res: seq<nat>)
    requires Wide(lhs) && Wide(rhs) && |lhs| > 0
    ensures Wide(res) && |res| == |lhs| && Value(res) == (Value(lhs) - Value(rhs)) % Size(|lhs|)
  {
    hide Value, Size, Cong, Summed, Resize;
    var n := |lhs|;
    ghost var r := Resize(rhs, n);
    ResizeCong(rhs, n);
    var underflows;
    res, underflows := SubtractColumns(lhs, rhs);
    ghost var columns, flags := res, underflows;
    SumStarts(res, r, lhs);
    SumColumn(res, r, lhs, 0, false, underflows[0]);
    for i := 1 to n
      invariant |res| == n == |underflows|
      invariant forall j | 0 <= j < n :: res[j] < BASE
      invariant forall j | i <= j < n :: res[j] == columns[j] && underflows[j] == flags[j]
      invariant Summed(res, r, lhs, i, underflows[i - 1])
    {
      ghost var before := res;
      if underflows[i - 1] {
        if res[i] == 0 {
          underflows := underflows[i := true];
        }
        res := res[i := (res[i] - 1) % BASE];
      }
      SameTerm(before, res, r, lhs, i, underflows[i - 1]);
      SumColumn(res, r, lhs, i, underflows[i - 1], underflows[i]);
    }
    DifferenceDone(lhs, r, res, underflows[n - 1], Value(rhs));
  }

  lemma SameTerm(lhs: seq<nat>, lhs': seq<nat>, rhs: seq<nat>, res: seq<nat>, i: nat, carry: bool)
    requires i <= |lhs| && i <= |rhs| && i <= |res| && i <= |lhs'| && lhs[..i] == lhs'[..i]
    requires Summed(lhs, rhs, res, i, carry)
    ensures Summed(lhs', rhs, res, i, carry)
  {
  }

  lemma DifferenceDone(lhs: seq<nat>, r: seq<nat>, res: seq<nat>, borrow: bool, x: int)
    requires Wide(res) && |lhs| == |r| == |res|
    requires Summed(res, r, lhs, |res|, borrow) && Cong(x, Value(r), Size(|res|))
    ensures Value(res) == (Value(lhs) - x) % Size(|res|)
  {
    hide Value, Size, Cong;
    var n := |res|;
    assert lhs[..n] == lhs && r[..n] == r && res[..n] == res;
    ValueFits(res);
    Commute(Size(n), AsNat(borrow));
    ReduceDifference(Value(lhs), x, Value(r), Value(res), AsNat(borrow), Size(n));
  }

  // ---------- Negation ----------

  lemma {:induction false} ComplementValue(a: seq<nat>, b: seq<nat>)
    requires Wide(a) && |a| == |b| && forall i | 0 <= i < |a| :: b[i] == BASE - 1 - a[i]
    ensures Value(b) == Size(|a|) - 1 - Value(a)
  {
    if |a| > 0 { ComplementValue(a[1..], b[1..]); }
  }

  method Tilda(lhs: seq<nat>) returns (res: seq<nat>)
    requires Wide(lhs)
    ensures Wide(res) && |res| == |lhs| && Value(res) == Size(|lhs|) - 1 - Value(lhs)
  {
    res := seq(|lhs|, i => 0);
    for i := 0 to |lhs|
      invariant |res| == |lhs|
      invariant forall j | 0 <= j < i :: res[j] == BASE - 1 - lhs[j]
    {
      res := res[i := BASE - 1 - lhs[i]];
    }
    ComplementValue(lhs, res);
  }

  method UnaryMinus(lhs: seq<nat>) returns (res: seq<nat>)
    requires Wide(lhs) && |lhs| > 0
    ensures Wide(res) && |res| == |lhs| && Value(res) == (0 - Value(lhs)) % Size(|lhs|)
  {
    var flipped := Tilda(lhs);
    res := Plus(flipped, [1]);
    assert Value([1]) == 1;
    ModAddMultiple(0 - Value(lhs), 1, Size(|lhs|));
  }

  // ---------- Comparison ----------

  /** The highest differing item decides. */
  lemma TopDecides(a: seq<nat>, b: seq<nat>, k: nat)
    requires Wide(a) && Wide(b) && |a| == |b| && k < |a| && a[k] < b[k] && a[k + 1..] == b[k + 1..]
    ensures Value(a) < Value(b)
  {
    hide Value, Size;
    ValueSplit(a, k + 1);
    ValueSplit(b, k + 1);
    ValueTake(a, k);
    ValueTake(b, k);
    ValueFits(a[..k]);
    MulMonotone(a[k] + 1, b[k], Size(k));
    assert Size(k) * (a[k] + 1) == Size(k) * a[k] + Size(k);
  }

  lemma Reading(a: seq<nat>, n: nat)
    requires Wide(a) && |a| <= n
    ensures Wide(Resize(a, n)) && Value(Resize(a, n)) == Value(a)
  {
    hide Value, Size;
    ResizeValue(a, n);
    ValueFits(a);
    SizeGrows(|a|, n);
    ModSmall(Value(a), Size(n));
  }

  /** The loop of both order operators: from the top, to the first item that differs. */
  method FirstDifference(lhs: seq<nat>, rhs: seq<nat>) returns (k: int)
    requires Wide(lhs) && Wide(rhs) && |rhs| <= |lhs|
    ensures -1 <= k < |lhs|
    ensures k == -1 ==> Value(lhs) == Value(rhs)
    ensures k >= 0 ==> lhs[k] != Item(rhs, k) && (lhs[k] < Item(rhs, k) <==> Value(lhs) < Value(rhs)) && Value(lhs) != Value(rhs)
  {
    ghost var b := Resize(rhs, |lhs|);
    Reading(rhs, |lhs|);
    for i := 0 to |lhs|
      invariant lhs[|lhs| - i..] == b[|lhs| - i..]
    {
      k := |lhs| - 1 - i;
      if lhs[k] != Item(rhs, k) {
        if lhs[k] < Item(rhs, k) { TopDecides(lhs, b, k); } else { TopDecides(b, lhs, k); }
        return k;
      }
      assert lhs[k..] == [lhs[k]] + lhs[k + 1..] && b[k..] == [b[k]] + b[k + 1..];
    }
    assert lhs[0..] == lhs && b[0..] == b;
    return -1;
  }

  /** `operator_less` on unsigned operands; the right one may be shorter. */
  method Less(lhs: seq<nat>, rhs: seq<nat>) returns (r: bool)
    requires Wide(lhs) && Wide(rhs) && |rhs| <= |lhs|
    ensures r <==> Value(lhs) < Value(rhs)
  {
    var k := FirstDifference(lhs, rhs);
    return k >= 0 && lhs[k] < Item(rhs, k);
  }

  /** `operator_more` on unsigned operands. */
  method More(lhs: seq<nat>, rhs: seq<nat>) returns (r: bool)
    requires Wide(lhs) && Wide(rhs) && |rhs| <= |lhs|
    ensures r <==> Value(lhs) > Value(rhs)
  {
    var k := FirstDifference(lhs, rhs);
    return k >= 0 && lhs[k] > Item(rhs, k);
  }

  method Equal(lhs: seq<nat>, rhs: seq<nat>) returns (r: bool)
    requires Wide(lhs) && Wide(rhs) && |rhs| <= |lhs|
    ensures r <==> Value(lhs) == Value(rhs)
  {
    ghost var b := Resize(rhs, |lhs|);
    Reading(rhs, |lhs|);
    for i := 0 to |lhs|
      invariant forall j | 0 <= j < i :: lhs[j] == b[j]
    {
      if lhs[i] != Item(rhs, i) {
        if Value(lhs) == Value(rhs) { ValueUnique(lhs, b); }
        return false;
      }
    }
    assert lhs == b;
    return true;
  }

  // ---------- Signed comparison ----------

  /** What the order operators answer on signed operands, `negative` being what `is_negative` answers for
      the right one: unlike signs decide at once, and then a shorter right operand is read with zeros on
      top. */
  ghost predicate SaysLess(lhs: seq<nat>, rhs: seq<nat>, negative: bool) {
    if IsNegative(lhs) != negative then IsNegative(lhs) else Value(lhs) < Value(rhs)
  }

  ghost predicate SaysMore(lhs: seq<nat>, rhs: seq<nat>, negative: bool) {
    if IsNegative(lhs) != negative then negative else Value(lhs) > Value(rhs)
  }

  /** Equality never asks for the sign. */
  ghost predicate SaysEqual(lhs: seq<nat>, rhs: seq<nat>) {
    Value(lhs) == Value(rhs)
  }

  /** `is_negative` of a wide right operand, for a left one of `n` items: the sign is read at item `n - 1`,
      which a shorter operand does not have. `beyond` is the word found there. */
  predicate SignRead(rhs: seq<nat>, n: nat, beyond: nat)
    requires 0 < |rhs| <= n
  {
    (if |rhs| == n then rhs[n - 1] else beyond) >= BASE / 2
  }

  method SignedLess(lhs: seq<nat>, rhs: seq<nat>, negative: bool) returns (r: bool)
    requires Wide(lhs) && Wide(rhs) && 0 < |rhs| <= |lhs|
    ensures r <==> SaysLess(lhs, rhs, negative)
    ensures negative == IsNegative(rhs) && (|rhs| == |lhs| || !negative) ==> (r <==> Signed(lhs) < Signed(rhs))
  {
    SignedAnswers(lhs, rhs);
    if IsNegative(lhs) != negative { return IsNegative(lhs); }
    r := Less(lhs, rhs);
  }

  method SignedMore(lhs: seq<nat>, rhs: seq<nat>, negative: bool) returns (r: bool)
    requires Wide(lhs) && Wide(rhs) && 0 < |rhs| <= |lhs|
    ensures r <==> SaysMore(lhs, rhs, negative)
    ensures negative == IsNegative(rhs) && (|rhs| == |lhs| || !negative) ==> (r <==> Signed(lhs) > Signed(rhs))
  {
    SignedAnswers(lhs, rhs);
    if IsNegative(lhs) != negative { return negative; }
    r := More(lhs, rhs);
  }

  /** With the true sign the order is right but for two negative numbers of which the right one is shorter:
      then the left one always counts as the larger. Equality is right unless the right one is shorter and
      negative. */
  lemma SignedAnswers(lhs: seq<nat>, rhs: seq<nat>)
    requires Wide(lhs) && Wide(rhs) && 0 < |rhs| <= |lhs|
    ensures |rhs| == |lhs| || !IsNegative(rhs) || !IsNegative(lhs) ==>
      && (SaysLess(lhs, rhs, IsNegative(rhs)) <==> Signed(lhs) < Signed(rhs))
      && (SaysMore(lhs, rhs, IsNegative(rhs)) <==> Signed(lhs) > Signed(rhs))
    ensures |rhs| == |lhs| || !IsNegative(rhs) ==> (SaysEqual(lhs, rhs) <==> Signed(lhs) == Signed(rhs))
    ensures |rhs| < |lhs| && IsNegative(lhs) ==>
      SaysMore(lhs, rhs, true) && !SaysLess(lhs, rhs, true) && !SaysEqual(lhs, rhs)
  {
    hide Value, Size, IsNegative, Wide;
    NegativeIff(lhs);
    NegativeIff(rhs);
    if |rhs| < |lhs| {
      SizeGrows(|rhs|, |lhs| - 1);
      SizeNext(|lhs| - 1);
    }
  }

  /** The least number of `n` items. */
  function Least(n: nat): seq<nat>
    requires n > 0
  {
    seq(n, i => if i == n - 1 then BASE / 2 else 0)
  }

  lemma LeastMeans(n: nat)
    requires n > 0
    ensures Wide(Least(n)) && IsNegative(Least(n)) && 2 * Signed(Least(n)) == 0 - Size(n)
  {
    hide Value, Size;
    var a := Least(n);
    ValueTake(a, n - 1);
    assert a[..n] == a;
    ValueZeros(a[..n - 1]);
    SizeNext(n - 1);
  }

  /** A negative row, made longer with its sign. */
  function Extended(a: seq<nat>, n: nat): seq<nat> {
    seq(n, i requires 0 <= i => if i < |a| then a[i] else BASE - 1)
  }

  lemma {:induction false} OnesValue(a: seq<nat>)
    requires forall i | 0 <= i < |a| :: a[i] == BASE - 1
    ensures Value(a) == Size(|a|) - 1
  {
    if |a| > 0 { OnesValue(a[1..]); }
  }

  lemma ExtendedMeans(a: seq<nat>, n: nat)
    requires Wide(a) && 0 < |a| < n && IsNegative(a)
    ensures Wide(Extended(a, n)) && IsNegative(Extended(a, n)) && Signed(Extended(a, n)) == Signed(a)
  {
    hide Value, Size;
    var e := Extended(a, n);
    ValueSplit(e, |a|);
    assert e[..|a|] == a;
    OnesValue(e[|a|..]);
    SizeAdd(|a|, n - |a|);
    assert Size(|a|) * (Size(n - |a|) - 1) == Size(|a|) * Size(n - |a|) - Size(|a|);
  }

  /** Against a given wide right operand the order operators are right for every left one, and for every
      word that may be found beyond the operand, exactly if the operand is as wide as the left one. */
  lemma WideOrderIff(rhs: seq<nat>, n: nat)
    requires Wide(rhs) && 0 < |rhs| <= n
    ensures (forall lhs, beyond: nat | Wide(lhs) && |lhs| == n ::
               SaysLess(lhs, rhs, SignRead(rhs, n, beyond)) <==> Signed(lhs) < Signed(rhs))
       <==> |rhs| == n
    ensures (forall lhs, beyond: nat | Wide(lhs) && |lhs| == n ::
               SaysMore(lhs, rhs, SignRead(rhs, n, beyond)) <==> Signed(lhs) > Signed(rhs))
       <==> |rhs| == n
  {
    hide SaysLess, SaysMore, Signed, Value;
    if |rhs| == n {
      forall lhs, beyond: nat | Wide(lhs) && |lhs| == n
        ensures SaysLess(lhs, rhs, SignRead(rhs, n, beyond)) <==> Signed(lhs) < Signed(rhs)
        ensures SaysMore(lhs, rhs, SignRead(rhs, n, beyond)) <==> Signed(lhs) > Signed(rhs)
      {
        SignedAnswers(lhs, rhs);
      }
    } else {
      LeastMeans(n);
      LeastBelow(rhs, n);
      SignedAnswers(Least(n), rhs);
      assert SignRead(rhs, n, BASE / 2);
    }
  }

  /** Neither operand is negative, but the word beyond the right one looks like a sign: 0 is not less than 1. */
  lemma ReadBeyond()
    ensures var lhs, rhs := [0, 0, 0, 0], [1, 0];
            !SaysLess(lhs, rhs, SignRead(rhs, 4, BASE / 2)) && !IsNegative(rhs) && Signed(lhs) == 0 && Signed(rhs) == 1
  {
    ValueZeros([0, 0, 0, 0]);
    ValueZeros([0]);
    assert [1, 0][1..] == [0];
  }

  /** Against a built-in right operand, whose sign is its own, they are right for every left one exactly if
      the operand is not negative or as wide as the left one. */
  lemma BuiltinOrderIff(rhs: seq<nat>, n: nat)
    requires Wide(rhs) && 0 < |rhs| <= n
    ensures (forall lhs | Wide(lhs) && |lhs| == n ::
               SaysLess(lhs, rhs, IsNegative(rhs)) <==> Signed(lhs) < Signed(rhs))
       <==> |rhs| == n || !IsNegative(rhs)
    ensures (forall lhs | Wide(lhs) && |lhs| == n ::
               SaysMore(lhs, rhs, IsNegative(rhs)) <==> Signed(lhs) > Signed(rhs))
       <==> |rhs| == n || !IsNegative(rhs)
  {
    hide SaysLess, SaysMore, Signed, Value, IsNegative;
    if |rhs| == n || !IsNegative(rhs) {
      forall lhs | Wide(lhs) && |lhs| == n
        ensures SaysLess(lhs, rhs, IsNegative(rhs)) <==> Signed(lhs) < Signed(rhs)
        ensures SaysMore(lhs, rhs, IsNegative(rhs)) <==> Signed(lhs) > Signed(rhs)
      {
        SignedAnswers(lhs, rhs);
      }
    } else {
      LeastMeans(n);
      LeastBelow(rhs, n);
      SignedAnswers(Least(n), rhs);
    }
  }

  /** Equality is right for every left operand under the same condition, wide or built-in. */
  lemma EqualityIff(rhs: seq<nat>, n: nat)
    requires Wide(rhs) && 0 < |rhs| <= n
    ensures (forall lhs | Wide(lhs) && |lhs| == n :: SaysEqual(lhs, rhs) <==> Signed(lhs) == Signed(rhs))
       <==> |rhs| == n || !IsNegative(rhs)
  {
    hide SaysEqual, Signed, Value, IsNegative;
    if |rhs| == n || !IsNegative(rhs) {
      forall lhs | Wide(lhs) && |lhs| == n ensures SaysEqual(lhs, rhs) <==> Signed(lhs) == Signed(rhs) {
        SignedAnswers(lhs, rhs);
      }
    } else {
      ExtendedMeans(rhs, n);
      SignedAnswers(Extended(rhs, n), rhs);
    }
  }

  lemma LeastBelow(rhs: seq<nat>, n: nat)
    requires Wide(rhs) && 0 < |rhs| < n
    ensures 2 * Signed(rhs) > 0 - Size(n)
  {
    hide Value, Size;
    SignedRange(rhs);
    SizeGrows(|rhs|, n - 1);
    SizeNext(n - 1);
  }
}
