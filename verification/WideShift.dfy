/** Shifts of wide integers: whole items first, then the bits that cross item borders. */
module WideShift {
  import opened Arith
  import opened Bits
  import opened WideWords

  /** `x << s` and `x >> s` on one 64-bit item. */
  function ItemShl(x: nat, s: nat): (r: nat)
    ensures r < BASE
  {
    x * Pow2(s) % BASE
  }

  function ItemShr(x: nat, s: nat): (r: nat)
    ensures r <= x
  {
    DivAtMost(x, Pow2(s));
    x / Pow2(s)
  }

  lemma Crossing(s: nat)
    requires s <= 64
    ensures Pow2(s) * Pow2(64 - s) == BASE
  {
    BaseIsPow2();
    Pow2Add(s, 64 - s);
  }

  /** What a left shift pushes out of an item is what a right shift by the rest keeps. */
  lemma ShlSplits(x: nat, s: nat)
    requires x < BASE && s <= 64
    ensures x * Pow2(s) == ItemShl(x, s) + BASE * ItemShr(x, 64 - s)
    ensures ItemShl(x, s) % Pow2(s) == 0 && ItemShr(x, 64 - s) < Pow2(s)
  {
    hide Pow2;
    Crossing(s);
    SplitProduct(x, Pow2(s), Pow2(64 - s), BASE);
  }

  /** The bits an item receives from its neighbour have no bit in common with its own. */
  lemma ShlJoin(x: nat, y: nat, s: nat)
    requires x < BASE && y < BASE && s <= 64
    ensures Or(ItemShl(x, s), ItemShr(y, 64 - s)) == ItemShl(x, s) + ItemShr(y, 64 - s) < BASE
    ensures Or(ItemShr(y, 64 - s), ItemShl(x, s)) == ItemShl(x, s) + ItemShr(y, 64 - s)
  {
    ShlSplits(x, s);
    ShlSplits(y, s);
    OrIsSum(ItemShl(x, s), ItemShr(y, 64 - s), s);
    Crossing(s);
    JoinBelow(ItemShl(x, s), ItemShr(y, 64 - s), Pow2(s), Pow2(64 - s));
  }

  lemma JoinBelow(a: nat, b: nat, p: nat, q: nat)
    requires p > 0 && a % p == 0 && a < p * q && b < p
    ensures a + b < p * q
  {
    var k := a / p;
    assert a == k * p;
    if k >= q { MulMonotone(q, k, p); }
    assert (k + 1) * p <= q * p by { MulMonotone(k + 1, q, p); }
  }

  // ---------- Left ----------

  /** Item `j` of a row shifted left by `whole` items and `bits` bits. */
  function LeftItem(rhs: seq<nat>, whole: nat, bits: nat, j: nat): nat
    requires whole <= j < |rhs| && bits < 64
  {
    ItemShl(rhs[j - whole], bits) + if bits > 0 && j > whole then ItemShr(rhs[j - whole - 1], 64 - bits) else 0
  }

  ghost predicate ShiftedLeft(rhs: seq<nat>, whole: nat, bits: nat, res: seq<nat>)
    requires bits < 64
  {
    && |res| == |rhs|
    && forall j | 0 <= j < |res| :: res[j] == if j < whole then 0 else LeftItem(rhs, whole, bits, j)
  }

  /** The bits pushed out of the items below `j`. */
  function Pushed(rhs: seq<nat>, whole: nat, bits: nat, j: nat): nat
    requires whole <= j <= |rhs| && bits < 64
  {
    if bits > 0 && j > whole then ItemShr(rhs[j - whole - 1], 64 - bits) else 0
  }

  lemma LeftColumn(rhs: seq<nat>, whole: nat, bits: nat, j: nat)
    requires Wide(rhs) && whole <= j < |rhs| && bits < 64
    ensures rhs[j - whole] * Pow2(bits) + Pushed(rhs, whole, bits, j)
         == LeftItem(rhs, whole, bits, j) + BASE * Pushed(rhs, whole, bits, j + 1)
  {
    ShlSplits(rhs[j - whole], bits);
    if bits == 0 { assert rhs[j - whole] * Pow2(0) == rhs[j - whole]; ModSmall(rhs[j - whole], BASE); }
  }

  lemma Distribute(p: nat, q: nat, v: nat, s: nat, x: nat, c: nat, item: nat, c': nat)
    requires x * p + c == item + BASE * c'
    ensures q * (v + s * x) * p + q * s * c == q * v * p + q * s * item + BASE * (q * s) * c'
  {
    var t := q * s;
    assert q * (v + s * x) * p == q * v * p + t * (x * p);
    assert t * (x * p) + t * c == t * (item + BASE * c');
    assert t * (item + BASE * c') == t * item + BASE * t * c';
  }

  lemma LeftStart(rhs: seq<nat>, zeros: seq<nat>, whole: nat, p: nat)
    requires |zeros| == whole && forall j | 0 <= j < whole :: zeros[j] == 0
    ensures Value(zeros) == 0 && Size(whole) * Value(rhs[..0]) * p == 0 && Size(whole) * 0 == 0
  {
    ValueZeros(zeros);
  }

  /** Up to item `j` the result is the shifted value, less what was pushed out. */
  lemma {:induction false} LeftPrefix(rhs: seq<nat>, whole: nat, bits: nat, res: seq<nat>, j: nat)
    requires bits < 64 && Wide(rhs) && ShiftedLeft(rhs, whole, bits, res) && whole <= j <= |rhs|
    ensures Value(res[..j]) + Size(j) * Pushed(rhs, whole, bits, j) == Size(whole) * Value(rhs[..j - whole]) * Pow2(bits)
    decreases j
  {
    hide Size, LeftItem, Pow2;
    if j == whole {
      LeftStart(rhs, res[..whole], whole, Pow2(bits));
    } else {
      hide Value, Pushed;
      LeftPrefix(rhs, whole, bits, res, j - 1);
      var k := j - 1 - whole;
      ValueTake(res, j - 1);
      ValueTake(rhs, k);
      LeftColumn(rhs, whole, bits, j - 1);
      SizeAdd(whole, k);
      Distribute(Pow2(bits), Size(whole), Value(rhs[..k]), Size(k), rhs[k], Pushed(rhs, whole, bits, j - 1),
                 res[j - 1], Pushed(rhs, whole, bits, j));
      SizeNext(j - 1);
    }
  }

  lemma LeftValue(rhs: seq<nat>, whole: nat, bits: nat, res: seq<nat>)
    requires bits < 64 && |res| == |rhs| && Wide(rhs) && Wide(res) && ShiftedLeft(rhs, whole, bits, res) && whole <= |rhs|
    ensures Value(res) == Value(rhs) * Pow2(64 * whole + bits) % Size(|rhs|)
  {
    hide Value, Size, Pow2, Pushed, ShiftedLeft;
    var n := |rhs|;
    var low, high := Value(rhs[..n - whole]), Value(rhs[n - whole..]);
    LeftPrefix(rhs, whole, bits, res, n);
    assert res[..n] == res;
    ValueSplit(rhs, n - whole);
    ValueFits(res);
    SizeAdd(whole, n - whole);
    SizeIsPow2(whole);
    Pow2Add(64 * whole, bits);
    LeftReduce(Value(res), low, high, Size(whole), Size(n - whole), Pow2(bits), Pushed(rhs, whole, bits, n));
  }

  lemma LeftReduce(v: nat, low: nat, high: nat, sw: nat, sr: nat, p: nat, c: nat)
    requires v < sw * sr && v + sw * sr * c == sw * low * p
    ensures v == (low + sr * high) * (sw * p) % (sw * sr)
  {
    var m := sw * sr;
    assert (low + sr * high) * (sw * p) == sw * low * p + m * (high * p) by {
      assert sr * high * (sw * p) == m * (high * p);
      assert low * (sw * p) == sw * low * p;
    }
    assert m * (high * p) + m * c == (high * p + c) * m;
    DivModUnique((low + sr * high) * (sw * p), m, high * p + c, v);
  }

  /** Shifts left, from the top item down. */
  method ShiftLeft(rhs: seq<nat>, n: nat) returns (lhs: seq<nat>)
    requires Wide(rhs) && n < 64 * |rhs|
    ensures Wide(lhs) && |lhs| == |rhs| && Value(lhs) == Value(rhs) * Pow2(n) % Size(|rhs|)
  {
    hide Value, Size, Pow2, ItemShl, ItemShr, Or;
    var count := |rhs|;
    lhs := seq(count, i => 0);
    var whole, bits := n / 64, n % 64;
    if bits > 0 {
      var rest := 64 - bits;
      lhs := lhs[count - 1 := ItemShl(rhs[count - 1 - whole], bits)];
      for i := 1 to count - whole
        invariant |lhs| == count
        invariant forall j | 0 <= j < count - i :: lhs[j] == 0
        invariant lhs[count - i] == ItemShl(rhs[count - i - whole], bits)
        invariant forall j | count - i < j < count :: lhs[j] == LeftItem(rhs, whole, bits, j) < BASE
      {
        ShlJoin(rhs[count - i - whole], rhs[count - 1 - whole - i], bits);
        lhs := lhs[count - i := Or(lhs[count - i], ItemShr(rhs[count - 1 - whole - i], rest))];
        lhs := lhs[count - 1 - i := ItemShl(rhs[count - 1 - whole - i], bits)];
      }
    } else {
      for i := 0 to count - whole
        invariant |lhs| == count
        invariant forall j | 0 <= j < count - i :: lhs[j] == 0
        invariant forall j | count - i <= j < count :: lhs[j] == rhs[j - whole]
      {
        lhs := lhs[count - 1 - i := rhs[count - 1 - whole - i]];
      }
      forall j | whole <= j < count ensures lhs[j] == LeftItem(rhs, whole, bits, j) { NoShift(rhs[j - whole]); }
    }
    for i := 0 to whole
      invariant |lhs| == count && Wide(lhs) && ShiftedLeft(rhs, whole, bits, lhs)
    {
      lhs := lhs[i := 0];
    }
    LeftValue(rhs, whole, bits, lhs);
  }

  lemma NoShift(x: nat)
    requires x < BASE
    ensures ItemShl(x, 0) == x && ItemShr(x, 0) == x
  {
    assert Pow2(0) == 1;
    ModSmall(x, BASE);
  }

  // ---------- Right ----------

  /** Item `j` of a row shifted right by `whole` items and `bits` bits. */
  function RightItem(rhs: seq<nat>, whole: nat, bits: nat, j: nat): nat
    requires bits < 64
  {
    if j + whole >= |rhs| then 0
    else ItemShr(rhs[j + whole], bits) +
         if bits > 0 && j + whole + 1 < |rhs| then ItemShl(rhs[j + whole + 1], 64 - bits) else 0
  }

  ghost predicate ShiftedRight(rhs: seq<nat>, whole: nat, bits: nat, res: seq<nat>)
    requires bits < 64
  {
    && |res| == |rhs|
    && forall j | 0 <= j < |res| :: res[j] == RightItem(rhs, whole, bits, j)
  }

  /** The same border, seen from a right shift. */
  lemma ShrSplits(x: nat, s: nat)
    requires x < BASE && s <= 64
    ensures Pow2(s) * ItemShr(x, s) == x - x % Pow2(s) && Pow2(s) * ItemShl(x, 64 - s) == BASE * (x % Pow2(s))
  {
    hide Pow2;
    Crossing(s);
    WordSplit(x, Pow2(s), Pow2(64 - s), BASE);
  }

  lemma WordSplit(x: nat, p: nat, q: nat, m: nat)
    requires p > 0 && q > 0 && q * p == m && x < m
    ensures p * (x / p) == x - x % p && x * q % m == x % p * q && p * (x * q % m) == m * (x % p)
  {
    SplitProduct(x, q, p, m);
    Regroup(x % p, q, p);
  }

  lemma Regroup(r: nat, p: nat, q: nat)
    ensures q * (r * p) == p * q * r
  {
  }

  /** The bits of item `k` that a right shift drops. */
  function Dropped(rhs: seq<nat>, bits: nat, k: nat): nat {
    if k < |rhs| then rhs[k] % Pow2(bits) else 0
  }

  lemma RightColumn(rhs: seq<nat>, whole: nat, bits: nat, j: nat)
    requires Wide(rhs) && j + whole < |rhs| && bits < 64
    ensures Pow2(bits) * RightItem(rhs, whole, bits, j) + Dropped(rhs, bits, j + whole)
         == rhs[j + whole] + BASE * Dropped(rhs, bits, j + whole + 1)
  {
    hide ItemShl, ItemShr;
    var k := j + whole;
    var y := if k + 1 < |rhs| then rhs[k + 1] else 0;
    ShrSplits(rhs[k], bits);
    ShrSplits(y, bits);
    if bits == 0 {
      NoShift(rhs[k]);
      assert Pow2(0) == 1;
    } else {
      assert Pow2(bits) * (ItemShr(rhs[k], bits) + ItemShl(y, 64 - bits))
          == Pow2(bits) * ItemShr(rhs[k], bits) + Pow2(bits) * ItemShl(y, 64 - bits);
      if k + 1 >= |rhs| { ModSmall(0, BASE); ModSmall(0, Pow2(bits)); ZeroShl(64 - bits); }
    }
  }

  lemma ZeroShl(s: nat)
    ensures ItemShl(0, s) == 0
  {
    assert 0 * Pow2(s) == 0;
    ModSmall(0, BASE);
  }

  lemma {:induction false} RightSuffix(rhs: seq<nat>, whole: nat, bits: nat, res: seq<nat>, j: nat)
    requires bits < 64 && Wide(rhs) && ShiftedRight(rhs, whole, bits, res) && j + whole <= |rhs|
    ensures Value(rhs[j + whole..]) == Pow2(bits) * Value(res[j..]) + Dropped(rhs, bits, j + whole)
    decreases |rhs| - j
  {
    hide RightItem, Pow2;
    if j + whole == |rhs| {
      hide Size;
      LeftStart(rhs, res[j..], whole, 0) by { RightRest(rhs, whole, bits, res, j); }
    } else {
      RightSuffix(rhs, whole, bits, res, j + 1);
      RightColumn(rhs, whole, bits, j);
      hide Dropped;
      assert rhs[j + whole..][1..] == rhs[j + whole + 1..] && res[j..][1..] == res[j + 1..];
      Weigh(Pow2(bits), res[j], Value(res[j + 1..]));
    }
  }

  lemma Weigh(p: nat, x: nat, v: nat)
    ensures p * (x + BASE * v) == p * x + BASE * (p * v)
  {
    assert p * (BASE * v) == BASE * (p * v);
  }

  lemma RightRest(rhs: seq<nat>, whole: nat, bits: nat, res: seq<nat>, j: nat)
    requires bits < 64 && ShiftedRight(rhs, whole, bits, res) && j + whole == |rhs|
    ensures |res[j..]| == whole && forall i | 0 <= i < whole :: res[j..][i] == 0
  {
  }

  lemma RightValue(rhs: seq<nat>, whole: nat, bits: nat, res: seq<nat>)
    requires bits < 64 && Wide(rhs) && ShiftedRight(rhs, whole, bits, res) && whole < |rhs|
    ensures Value(res) == Value(rhs) / Pow2(64 * whole + bits)
  {
    hide Value, Size, RightItem, Pow2;
    RightSuffix(rhs, whole, bits, res, 0);
    assert res[0..] == res;
    TakeIsMod(rhs, whole);
    SizeIsPow2(whole);
    Pow2Add(64 * whole, bits);
    DivDiv(Value(rhs), Pow2(64 * whole), Pow2(bits), Value(res), Dropped(rhs, bits, whole));
  }

  lemma DivDiv(v: nat, a: nat, b: nat, r: nat, d: nat)
    requires a > 0 && b > 0 && v / a == b * r + d && d < b
    ensures v / (a * b) == r
  {
    var l := v % a;
    assert v == a * (b * r + d) + l;
    assert a * (b * r + d) == r * (a * b) + a * d;
    assert a * d + l < a * b by { MulMonotone(d + 1, b, a); assert a * (d + 1) == a * d + a; }
    DivModUnique(v, a * b, r, a * d + l);
  }

  /** Moves items and bits down, from the bottom item up; what is shifted in is zero. */
  method MoveRight(rhs: seq<nat>, n: nat) returns (lhs: seq<nat>)
    requires Wide(rhs) && n < 64 * |rhs|
    ensures Wide(lhs) && |lhs| == |rhs| && Value(lhs) == Value(rhs) / Pow2(n)
    ensures ShiftedRight(rhs, n / 64, n % 64, lhs)
  {
    hide Value, Size, Pow2, ItemShl, ItemShr, Or;
    var count := |rhs|;
    lhs := seq(count, i => 0);
    var whole, bits := n / 64, n % 64;
    if bits > 0 {
      var rest := 64 - bits;
      lhs := lhs[0 := ItemShr(rhs[whole], bits)];
      for i := 1 to count - whole
        invariant |lhs| == count
        invariant forall j | i <= j < count :: lhs[j] == 0
        invariant lhs[i - 1] == ItemShr(rhs[whole + i - 1], bits) < BASE
        invariant forall j | 0 <= j < i - 1 :: lhs[j] == RightItem(rhs, whole, bits, j) < BASE
      {
        ShlJoin(rhs[whole + i], rhs[whole + i - 1], rest);
        lhs := lhs[i - 1 := Or(lhs[i - 1], ItemShl(rhs[whole + i], rest))];
        lhs := lhs[i := ItemShr(rhs[whole + i], bits)];
      }
    } else {
      for i := 0 to count - whole
        invariant |lhs| == count
        invariant forall j | i <= j < count :: lhs[j] == 0
        invariant forall j | 0 <= j < i :: lhs[j] == rhs[j + whole]
      {
        lhs := lhs[i := rhs[whole + i]];
      }
      forall j | 0 <= j < count - whole ensures lhs[j] == RightItem(rhs, whole, bits, j) { NoShift(rhs[j + whole]); }
    }
    RightValue(rhs, whole, bits, lhs);
  }

  /** What a right shift yields. The fill of a negative operand ends at item `|rhs| - n / 64` or `n / 64`,
      whichever is higher, and not at the top. */
  ghost function Right(rhs: seq<nat>, n: nat, signed: bool): int
    requires n < 64 * |rhs|
  {
    Value(rhs) / Pow2(n) +
    if signed && IsNegative(rhs) then Size(FillEnd(|rhs|, n / 64)) - Pow2(64 * |rhs| - n) else 0
  }

  function FillEnd(count: nat, whole: nat): nat
    requires whole <= count
  {
    if count - whole < whole then whole else count - whole
  }

  /** Shifts right; `signed` operands are meant to keep their sign. */
  method ShiftRight(rhs: seq<nat>, n: nat, signed: bool) returns (lhs: seq<nat>)
    requires Wide(rhs) && n < 64 * |rhs|
    ensures Wide(lhs) && |lhs| == |rhs| && Value(lhs) == Right(rhs, n, signed)
    ensures signed && IsNegative(rhs) ==> (Signed(lhs) == Signed(rhs) / Pow2(n) <==> n < 64)
    ensures forall j | |rhs| - n / 64 <= j < |rhs| :: lhs[j] == if signed && IsNegative(rhs) && j < n / 64 then BASE - 1 else 0
  {
    hide Value, Size, Pow2, ItemShl, ItemShr, Or, Signed, ShiftedRight;
    var count := |rhs|;
    var whole, bits := n / 64, n % 64;
    lhs := MoveRight(rhs, n);
    ghost var plain := lhs;
    forall j | count - whole <= j < count ensures plain[j] == 0 { ZeroAbove(rhs, whole, bits, plain, j); }
    if signed && IsNegative(rhs) {
      ghost var drop := Pow2(64 * count - n);
      SizeIsPow2(count - whole);
      if bits > 0 {
        var k := count - 1 - whole;
        TopRight(rhs, whole, bits, plain);
        OnesFit(lhs[k], bits);
        FillTop(lhs, k, rhs[count - 1], bits);
        lhs := lhs[k := Or(lhs[k], ItemShl(BASE - 1, 64 - bits))];
      }
      for i := count - whole to FillEnd(count, whole)
        invariant |lhs| == count && Wide(lhs) && Value(lhs) == Value(plain) + Size(i) - drop
        invariant forall j | i <= j < count :: lhs[j] == 0
        invariant forall j | count - whole <= j < i :: lhs[j] == BASE - 1
      {
        SetItem(lhs, i, BASE - 1);
        SizeNext(i);
        lhs := lhs[i := BASE - 1];
      }
      RightSigned(rhs, n, lhs);
    } else {
      for i := count - whole to FillEnd(count, whole)
        invariant lhs == plain
      {
        lhs := lhs[i := 0];
      }
    }
  }

  lemma ZeroAbove(rhs: seq<nat>, whole: nat, bits: nat, plain: seq<nat>, i: nat)
    requires bits < 64 && ShiftedRight(rhs, whole, bits, plain) && |rhs| - whole <= i < |rhs|
    ensures plain[i] == 0
  {
  }

  lemma TopRight(rhs: seq<nat>, whole: nat, bits: nat, plain: seq<nat>)
    requires bits < 64 && ShiftedRight(rhs, whole, bits, plain) && whole < |rhs|
    ensures plain[|rhs| - 1 - whole] == ItemShr(rhs[|rhs| - 1], bits)
  {
  }

  lemma OnesFit(x: nat, bits: nat)
    requires x < BASE && 0 < bits < 64
    ensures Or(x, ItemShl(BASE - 1, 64 - bits)) < BASE
  {
    BaseIsPow2();
    Width(x, ItemShl(BASE - 1, 64 - bits), 64);
  }

  lemma SetItem(a: seq<nat>, k: nat, x: nat)
    requires k < |a|
    ensures Value(a[k := x]) == Value(a) + Size(k) * (x - a[k])
  {
    hide Size;
    var b := a[k := x];
    ValueSplit(a, k);
    ValueSplit(b, k);
    assert b[..k] == a[..k] && b[k..][1..] == a[k..][1..];
    hide Value;
    Exchange(Size(k), a[k], x, BASE * Value(a[k..][1..]));
  }

  lemma Exchange(s: nat, x: nat, y: nat, t: nat)
    ensures s * (y + t) == s * (x + t) + s * (y - x)
  {
  }

  /** The fill of the top item of the shifted number. */
  lemma FillTop(a: seq<nat>, k: nat, x: nat, bits: nat)
    requires k < |a| && x < BASE && 0 < bits < 64 && a[k] == ItemShr(x, bits)
    ensures Value(a[k := Or(a[k], ItemShl(BASE - 1, 64 - bits))]) == Value(a) + Size(k + 1) - Pow2(64 * (k + 1) - bits)
  {
    hide Value, Size, Pow2, ItemShl, ItemShr, Or;
    Ones(x, bits);
    SetItem(a, k, Or(a[k], ItemShl(BASE - 1, 64 - bits)));
    SizeNext(k);
    SizeIsPow2(k);
    Pow2Add(64 * k, 64 - bits);
    assert 64 * k + (64 - bits) == 64 * (k + 1) - bits;
    Exchange(Size(k), Pow2(64 - bits), BASE, 0);
  }

  /** The fill bits are the top `bits` bits of the item. */
  lemma Ones(x: nat, bits: nat)
    requires x < BASE && 0 < bits < 64
    ensures Or(ItemShr(x, bits), ItemShl(BASE - 1, 64 - bits)) == ItemShr(x, bits) + BASE - Pow2(64 - bits)
  {
    hide Pow2, Or, ItemShr;
    Crossing(bits);
    ShlJoin(BASE - 1, x, 64 - bits);
    WordSplit(BASE - 1, Pow2(bits), Pow2(64 - bits), BASE);
    LastOnes(Pow2(64 - bits), Pow2(bits));
  }

  lemma LastOnes(p: nat, q: nat)
    requires p > 0 && q > 0 && p * q == BASE
    ensures (BASE - 1) % q * p == BASE - p
  {
    assert BASE - 1 == (p - 1) * q + (q - 1);
    DivModUnique(BASE - 1, q, p - 1, q - 1);
    assert (q - 1) * p == p * q - p;
  }

  /** The fill restores the sign exactly when no whole item is shifted out. */
  lemma RightSigned(rhs: seq<nat>, n: nat, res: seq<nat>)
    requires Wide(rhs) && Wide(res) && |res| == |rhs| && n < 64 * |rhs| && IsNegative(rhs)
    requires Value(res) == Right(rhs, n, true)
    ensures Signed(res) == Signed(rhs) / Pow2(n) <==> n < 64
  {
    hide Value, Size, Pow2, IsNegative, Wide, Right, Signed;
    if n < 64 { RightKept(rhs, n, res); } else { RightLost(rhs, n, res); }
  }

  lemma RightKept(rhs: seq<nat>, n: nat, res: seq<nat>)
    requires Wide(rhs) && Wide(res) && |res| == |rhs| && n < 64 && |rhs| > 0 && IsNegative(rhs)
    requires Value(res) == Right(rhs, n, true)
    ensures Signed(res) == Signed(rhs) / Pow2(n)
  {
    hide Value, Size, Pow2, IsNegative, Wide;
    NegativeIff(rhs);
    NegativeIff(res);
    SizeParts(|rhs|, n);
    KeepsSign(Value(rhs), Size(|rhs|), Pow2(n), Pow2(64 * |rhs| - n), Value(res));
  }

  lemma RightLost(rhs: seq<nat>, n: nat, res: seq<nat>)
    requires Wide(rhs) && Wide(res) && |res| == |rhs| && 64 <= n < 64 * |rhs| && IsNegative(rhs)
    requires Value(res) == Right(rhs, n, true)
    ensures Signed(res) != Signed(rhs) / Pow2(n)
  {
    hide Value, Size, Pow2, IsNegative, Wide;
    NegativeIff(rhs);
    NegativeIff(res);
    SizeParts(|rhs|, n);
    SizeGrows(FillEnd(|rhs|, n / 64), |rhs| - 1);
    SizeNext(|rhs| - 1);
    LosesSign(Value(rhs), Size(|rhs|), Pow2(n), Pow2(64 * |rhs| - n), Size(FillEnd(|rhs|, n / 64)), Value(res));
  }

  lemma SizeParts(count: nat, n: nat)
    requires n <= 64 * count
    ensures Size(count) == Pow2(n) * Pow2(64 * count - n)
    ensures Pow2(n) == 1 || 2 * Pow2(64 * count - n) <= Size(count)
  {
    SizeIsPow2(count);
    Pow2Add(n, 64 * count - n);
    if n > 0 { Pow2Monotone(64 * count - n, 64 * count); }
  }

  lemma KeepsSign(v: nat, m: nat, p: nat, h: nat, r: nat)
    requires p > 0 && m == p * h && m <= 2 * v && r == v / p + m - h && (p == 1 || 2 * h <= m)
    ensures 2 * r >= m && r - m == (v - m) / p
  {
    Floor(v, m, p, h);
    DivAtMost(v, p);
    if p == 1 { DivModUnique(v, 1, v, 0); }
    UpperHalf(v, m, h, v / p, r, p == 1);
  }

  lemma UpperHalf(v: nat, m: nat, h: nat, x: int, r: nat, whole: bool)
    requires m <= 2 * v && x >= 0 && r == x + m - h && if whole then x == v && h == m else 2 * h <= m
    ensures 2 * r >= m
  {
  }

  lemma LosesSign(v: nat, m: nat, p: nat, h: nat, e: nat, r: nat)
    requires p > 0 && m == p * h && v < m && 2 * e <= m && r == v / p + e - h
    ensures 2 * r < m && (v - m) / p < 0
  {
    DivBelow(v, p, h);
    NegativeDiv(v - m, p);
  }

  lemma NegativeDiv(x: int, p: nat)
    requires x < 0 && p > 0
    ensures x / p < 0
  {
  }

  lemma Floor(v: nat, m: nat, p: nat, h: nat)
    requires p > 0 && m == p * h
    ensures (v - m) / p == v / p - h
  {
    var k: int := 0 - h;
    assert v - m == v + k * p;
    ModAddMultiple(v, k, p);
  }

  /** The least 128-bit number, shifted by one item: the sign is lost. */
  lemma SignLost()
    ensures var rhs := [0, BASE / 2];
            Right(rhs, 64, true) == BASE / 2 && Signed(rhs) / Pow2(64) == 0 - BASE / 2
  {
    var rhs := [0, BASE / 2];
    BaseIsPow2();
    assert Value(rhs[1..]) == BASE / 2 + BASE * Value(rhs[1..][1..]);
    assert Size(1) == BASE * Size(0) && Size(2) == BASE * Size(1);
  }
}
