/** Wide integers: little-endian rows of 64-bit items, of any length. */
module WideWords {
  import opened Arith

  const BASE := 0x1_0000_0000_0000_0000

  ghost predicate Wide(a: seq<nat>) {
    forall i | 0 <= i < |a| :: a[i] < BASE
  }

  /** The number that the items spell. */
  ghost function Value(a: seq<nat>): nat {
    if |a| == 0 then 0 else a[0] + BASE * Value(a[1..])
  }

  /** 2^Bits for `n` items. */
  ghost function Size(n: nat): (p: nat)
    ensures p >= 1
  {
    if n == 0 then 1 else BASE * Size(n - 1)
  }

  lemma SizeNext(n: nat)
    ensures Size(n + 1) == BASE * Size(n)
  {
  }

  lemma BaseIsPow2()
    ensures BASE == Pow2(64)
  {
    MachineWidths();
  }

  lemma {:induction false} SizeIsPow2(n: nat)
    ensures Size(n) == Pow2(64 * n)
  {
    if n > 0 {
      SizeIsPow2(n - 1);
      BaseIsPow2();
      Pow2Add(64, 64 * (n - 1));
      assert 64 + 64 * (n - 1) == 64 * n;
    }
  }

  lemma {:induction false} SizeAdd(a: nat, b: nat)
    ensures Size(a + b) == Size(a) * Size(b)
  {
    if a > 0 {
      SizeAdd(a - 1, b);
      assert Size(a + b) == BASE * (Size(a - 1) * Size(b));
    }
  }

  lemma {:induction false} ValueFits(a: seq<nat>)
    requires Wide(a)
    ensures Value(a) < Size(|a|)
  {
    if |a| > 0 { ValueFits(a[1..]); }
  }

  /** Items above `n` weigh `Size(n)` times as much. */
  lemma {:induction false} ValueSplit(a: seq<nat>, n: nat)
    requires n <= |a|
    ensures Value(a) == Value(a[..n]) + Size(n) * Value(a[n..])
  {
    if n == 0 {
      assert a[0..] == a;
    } else {
      ValueSplit(a[1..], n - 1);
      assert a[1..][..n - 1] == a[..n][1..] && a[1..][n - 1..] == a[n..];
      assert BASE * (Size(n - 1) * Value(a[n..])) == BASE * Size(n - 1) * Value(a[n..]);
    }
  }

  lemma ValueTake(a: seq<nat>, n: nat)
    requires n < |a|
    ensures Value(a[..n + 1]) == Value(a[..n]) + Size(n) * a[n]
  {
    var b := a[..n + 1];
    ValueSplit(b, n);
    assert b[..n] == a[..n] && b[n..] == [a[n]];
    assert Value([a[n]]) == a[n] + BASE * Value([]);
  }

  /** Truncation to `n` items is reduction modulo 2^Bits. */
  lemma TakeIsMod(a: seq<nat>, n: nat)
    requires Wide(a) && n <= |a|
    ensures Value(a[..n]) == Value(a) % Size(n) && Value(a[n..]) == Value(a) / Size(n)
  {
    hide Size, Value;
    ValueSplit(a, n);
    ValueFits(a[..n]);
    assert Size(n) * Value(a[n..]) == Value(a[n..]) * Size(n);
    DivModUnique(Value(a), Size(n), Value(a[n..]), Value(a[..n]));
  }

  lemma {:induction false} ValueZeros(a: seq<nat>)
    requires forall i | 0 <= i < |a| :: a[i] == 0
    ensures Value(a) == 0
  {
    if |a| > 0 { ValueZeros(a[1..]); }
  }

  /** Different rows of the same length spell different numbers. */
  lemma {:induction false} ValueUnique(a: seq<nat>, b: seq<nat>)
    requires Wide(a) && Wide(b) && |a| == |b| && Value(a) == Value(b)
    ensures a == b
  {
    if |a| > 0 {
      assert a[0] == b[0] && Value(a[1..]) == Value(b[1..]);
      ValueUnique(a[1..], b[1..]);
      assert a == [a[0]] + a[1..] && b == [b[0]] + b[1..];
    }
  }

  // ---------- Items of the other operand ----------

  /** `get_item`: items past the end read as zero. */
  function Item(x: seq<nat>, i: nat): nat {
    if i < |x| then x[i] else 0
  }

  /** `x` as a row of `n` items. */
  function Resize(x: seq<nat>, n: nat): seq<nat> {
    seq(n, i requires 0 <= i => Item(x, i))
  }

  lemma ResizeValue(x: seq<nat>, n: nat)
    requires Wide(x)
    ensures Wide(Resize(x, n)) && Value(Resize(x, n)) == Value(x) % Size(n)
  {
    var r := Resize(x, n);
    if n <= |x| {
      hide Value, Size;
      assert r == x[..n];
      TakeIsMod(x, n);
    } else {
      PaddedValue(x, r);
      hide Value, Size;
      SizeGrows(|x|, n);
      ValueFits(x);
      ModSmall(Value(x), Size(n));
    }
  }

  lemma PaddedValue(x: seq<nat>, r: seq<nat>)
    requires |x| <= |r| && r[..|x|] == x && forall i | |x| <= i < |r| :: r[i] == 0
    ensures Value(r) == Value(x)
  {
    hide Value, Size;
    ValueSplit(r, |x|);
    ValueZeros(r[|x|..]);
    assert Size(|x|) * 0 == 0;
  }

  lemma SizeGrows(m: nat, n: nat)
    requires m <= n
    ensures Size(m) <= Size(n)
  {
    hide Size;
    SizeAdd(m, n - m);
    MulAtLeast(Size(n - m), Size(m));
  }

  // ---------- Signed reading ----------

  predicate IsNegative(a: seq<nat>) {
    |a| > 0 && a[|a| - 1] >= BASE / 2
  }

  /** The number in two's complement. */
  ghost function Signed(a: seq<nat>): int {
    if IsNegative(a) then Value(a) - Size(|a|) else Value(a)
  }

  lemma TopItem(low: nat, top: nat, s: nat, v: nat)
    requires low < s && top < BASE && v == low + s * top
    ensures v < BASE * s && (top >= BASE / 2 <==> 2 * v >= BASE * s)
  {
    MulMonotone(top, BASE - 1, s);
    if top >= BASE / 2 { MulMonotone(BASE / 2, top, s); } else { MulMonotone(top, BASE / 2 - 1, s); }
  }

  /** The sign bit is set exactly in the upper half of the numbers. */
  lemma NegativeIff(a: seq<nat>)
    requires Wide(a) && |a| > 0
    ensures Value(a) < Size(|a|)
    ensures IsNegative(a) <==> 2 * Value(a) >= Size(|a|)
  {
    hide Value, Size;
    var n := |a| - 1;
    ValueTake(a, n);
    assert a[..n + 1] == a;
    ValueFits(a[..n]);
    SizeNext(n);
    TopItem(Value(a[..n]), a[n], Size(n), Value(a));
  }

  lemma SignedRange(a: seq<nat>)
    requires Wide(a) && |a| > 0
    ensures 0 - Size(|a|) <= 2 * Signed(a) < Size(|a|)
    ensures IsNegative(a) <==> Signed(a) < 0
    ensures Cong(Signed(a), Value(a), Size(|a|))
  {
    hide Value, Size, IsNegative, Wide;
    NegativeIff(a);
    CongWitness(Value(a), Value(a) - Size(|a|), Size(|a|), 1);
  }
}
