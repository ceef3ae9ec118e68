/** Multiplication of wide integers: shift-and-add for any width, and the 256-bit schoolbook form. */
module WideMul {
  import opened Arith
  import opened WideWords
  import opened WideAdd
  import opened WideShift

  /** `sum` is `res` and `f` shifted copies of `v`, modulo 2^Bits. */
  ghost predicate Added(sum: int, res: int, f: int, v: int, pos: nat, m: int)
    requires m > 0
  {
    Cong(sum, res + f * v * Pow2(pos), m)
  }

  ghost predicate MultipleOf(part: int, f: int, v: int, m: int)
    requires m > 0
  {
    Cong(part, f * v, m)
  }

  method AddShifted(res: seq<nat>, part: seq<nat>, pos: nat, ghost f: int, ghost v: int) returns (sum: seq<nat>)
    requires Wide(res) && Wide(part) && |res| == |part| && pos < 64 * |res|
    requires MultipleOf(Value(part), f, v, Size(|res|))
    ensures Wide(sum) && |sum| == |res| && Added(Value(sum), Value(res), f, v, pos, Size(|res|))
  {
    hide Value, Size, Pow2, Cong;
    var shifted := ShiftLeft(part, pos);
    sum := Plus(res, shifted);
    AddShiftedValue(Value(sum), Value(res), Value(shifted), Value(part), f * v, Pow2(pos), Size(|res|));
  }

  lemma AddShiftedValue(sum: int, res: int, shifted: int, part: int, multiple: int, p: int, m: int)
    requires m > 0 && sum == (res + shifted) % m && shifted == part * p % m && Cong(part, multiple, m)
    ensures Cong(sum, res + multiple * p, m)
  {
    CongMod(res + shifted, m);
    CongMod(part * p, m);
    CongMul(part, multiple, p, p, m);
    CongAdd(res, res, shifted, multiple * p, m);
  }

  /** Three times and seven times the operand, as the shortcuts use them. */
  lemma SmallMultiples(v: int, twice: int, four: int, three: int, seven: int, m: int)
    requires m > 0 && twice == v * Pow2(1) % m && four == v * Pow2(2) % m
    requires three == (v + twice) % m && seven == (three + four) % m
    ensures MultipleOf(three, 3, v, m) && MultipleOf(seven, 7, v, m) && MultipleOf(v, 1, v, m)
  {
    assert Pow2(1) == 2 && Pow2(2) == 4;
    CongMod(v * 2, m);
    CongMod(v * 4, m);
    CongMod(v + twice, m);
    CongAdd(v, v, twice, v * 2, m);
    CongTrans(three, v + twice, 3 * v, m);
    CongMod(three + four, m);
    CongAdd(three, 3 * v, four, v * 4, m);
  }

  /** Where the loops are: what is added so far and what the rest of the item will add. */
  ghost predicate Partway(res: int, v: int, item: int, p: int, target: int, m: int)
    requires m > 0
  {
    Cong(res + v * (item * p), v * target, m)
  }

  /** Taking `b` bits with value `f` off the item. */
  lemma TakeBits(res: int, res': int, v: int, item: int, rest: int, f: int, b: nat, pos: nat, target: int, m: int)
    requires m > 0 && Partway(res, v, item, Pow2(pos), target, m)
    requires item == Pow2(b) * rest + f && Cong(res', res + f * v * Pow2(pos), m)
    ensures Partway(res', v, rest, Pow2(pos + b), target, m)
  {
    hide Pow2, Cong;
    Pow2Add(pos, b);
    var p := Pow2(pos);
    BitsApart(v, rest, f, Pow2(b), p);
    Reflexive(v * (rest * Pow2(pos + b)), m);
    CongAdd(res', res + f * v * p, v * (rest * Pow2(pos + b)), v * (rest * Pow2(pos + b)), m);
    CongTrans(res' + v * (rest * Pow2(pos + b)), res + v * (item * p), v * target, m);
  }

  lemma BitsApart(v: int, rest: int, f: int, b: int, p: int)
    ensures v * ((b * rest + f) * p) == v * (rest * (p * b)) + f * v * p
  {
    assert (b * rest + f) * p == rest * (p * b) + f * p;
    assert v * (f * p) == f * v * p;
  }

  /** The item is what is left of its 64 bits above `pos`. */
  lemma ItemFits(item: nat, rest: nat, f: nat, b: nat, left: nat)
    requires item == Pow2(b) * rest + f && item < Pow2(left) && item > 0 && f < Pow2(b) && (f == 0 ==> b <= 1)
    requires f > 0 ==> f == Pow2(b) - 1
    ensures b <= left && rest < Pow2(left - b) && left > 0
  {
    hide Pow2;
    Pow2Next(0);
    assert Pow2(b) * rest >= 0;
    if left < b { Pow2Monotone(left, b); }
    Pow2Add(b, left - b);
    if rest >= Pow2(left - b) { MulMonotone(Pow2(left - b), rest, Pow2(b)); }
  }

  lemma NothingYet(r: seq<nat>, v: int, m: int)
    requires m > 0
    ensures MultipleOf(0, Value(r[..0]), v, m)
  {
    assert r[..0] == [];
  }

  /** Entering the inner loop: the whole item is still to come. */
  lemma ItemStarts(rhs: seq<nat>, n: nat, i: nat, res: int, v: int, m: int)
    requires m > 0 && i < n && Wide(rhs) && MultipleOf(res, Value(Resize(rhs, n)[..i]), v, m)
    ensures Partway(res, v, Item(rhs, i), Pow2(i * 64), Value(Resize(rhs, n)[..i + 1]), m)
    ensures Item(rhs, i) < Pow2(64)
  {
    hide Value, Size, Pow2, Cong;
    var r, item := Resize(rhs, n), Item(rhs, i);
    BaseIsPow2();
    ValueTake(r, i);
    SizeIsPow2(i);
    var low := Value(r[..i]);
    Commute(low, v);
    assert v * (low + Size(i) * item) == v * low + v * (item * Size(i)) by {
      assert Size(i) * item == item * Size(i);
    }
    Reflexive(v * (item * Size(i)), m);
    CongAdd(res, v * low, v * (item * Size(i)), v * (item * Size(i)), m);
  }

  lemma Product(res: int, v: int, r: int, x: int, m: int)
    requires m > 0 && 0 <= res < m && MultipleOf(res, r, v, m) && Cong(x, r, m)
    ensures res == v * x % m
  {
    CongMul(v, v, x, r, m);
    ModSmall(res, m);
  }

  /** The state of the inner loop: `item` is what is left of 64 bits that end at `end`. */
  ghost predicate Going(res: int, v: int, item: nat, pos: nat, end: nat, target: int, m: int)
    requires m > 0
  {
    pos <= end && item < Pow2(end - pos) && Partway(res, v, item, Pow2(pos), target, m)
  }

  lemma GoStarts(res: int, v: int, item: nat, pos: nat, target: int, m: int)
    requires m > 0 && item < Pow2(64) && Partway(res, v, item, Pow2(pos), target, m)
    ensures Going(res, v, item, pos, pos + 64, target, m)
  {
  }

  lemma SmallPowers()
    ensures Pow2(3) == 8 && Pow2(2) == 4 && Pow2(1) == 2
  {
  }

  lemma Room(res: int, v: int, item: nat, pos: nat, end: nat, target: int, m: int)
    requires m > 0 && Going(res, v, item, pos, end, target, m) && item > 0
    ensures pos < end
  {
  }

  /** The low `b` bits of the item, when all of them are ones or when there is only one of them. */
  lemma Consume(res: int, res': int, v: int, item: nat, rest: nat, f: nat, b: nat, p: nat, pos: nat, end: nat, target: int, m: int)
    requires m > 0 && Going(res, v, item, pos, end, target, m) && item > 0 && b >= 1 && p == Pow2(b)
    requires item == p * rest + f && (f == p - 1 || (b == 1 && f == 0)) && Added(res', res, f, v, pos, m)
    ensures Going(res', v, rest, pos + b, end, target, m)
  {
    hide Partway, Cong;
    TwoAtLeast(b);
    ItemFits(item, rest, f, b, end - pos);
    TakeBits(res, res', v, item, rest, f, b, pos, target, m);
  }

  lemma TwoAtLeast(bits: nat)
    requires bits > 0
    ensures Pow2(bits) >= 2
  {
    assert Pow2(bits) == 2 * Pow2(bits - 1);
  }

  lemma Unchanged(res: int, v: int, pos: nat, m: int)
    requires m > 0
    ensures Added(res, res, 0, v, pos, m) && MultipleOf(v, 1, v, m)
  {
    assert res + 0 * v * Pow2(pos) == res;
  }

  /** The left operand, and the multiples of it that the shortcuts add. */
  datatype Copies = Copies(one: seq<nat>, three: seq<nat>, seven: seq<nat>) {
    ghost predicate Ok() {
      && Wide(one) && Wide(three) && Wide(seven) && |one| == |three| == |seven| > 0
      && MultipleOf(Value(three), 3, Value(one), Size(|one|)) && MultipleOf(Value(seven), 7, Value(one), Size(|one|))
    }
  }

  /** The inner loop: one item of the multiplier, three or two bits at a time where they are all ones. */
  method AddItem(res0: seq<nat>, c: Copies, rhsItem: nat, start: nat, ghost target: int) returns (res: seq<nat>)
    requires c.Ok() && Wide(res0) && |res0| == |c.one| && start + 64 <= 64 * |res0| && rhsItem < Pow2(64)
    requires Partway(Value(res0), Value(c.one), rhsItem, Pow2(start), target, Size(|res0|))
    ensures Wide(res) && |res| == |res0| && MultipleOf(Value(res), target, Value(c.one), Size(|res0|))
  {
    hide Value, Size, Pow2, Partway, Going, Added, MultipleOf;
    SmallPowers();
    ghost var m, v, end := Size(|res0|), Value(c.one), start + 64;
    res := res0;
    var item: nat, pos: nat := rhsItem, start;
    GoStarts(Value(res), v, item, pos, target, m);
    while item > 0
      invariant Wide(res) && |res| == |res0| && Going(Value(res), v, item, pos, end, target, m)
    {
      ghost var before := Value(res);
      Room(before, v, item, pos, end, target, m);
      if item % 8 == 7 {
        res := AddShifted(res, c.seven, pos, 7, v);
        Consume(before, Value(res), v, item, item / 8, 7, 3, 8, pos, end, target, m);
        item, pos := item / 8, pos + 3;
      } else if item % 4 == 3 {
        res := AddShifted(res, c.three, pos, 3, v);
        Consume(before, Value(res), v, item, item / 4, 3, 2, 4, pos, end, target, m);
        item, pos := item / 4, pos + 2;
      } else {
        Unchanged(before, v, pos, m);
        if item % 2 == 1 {
          res := AddShifted(res, c.one, pos, 1, v);
        }
        Consume(before, Value(res), v, item, item / 2, item % 2, 1, 2, pos, end, target, m);
        item, pos := item / 2, pos + 1;
      }
    }
    Finish(Value(res), v, pos, end, target, m);
  }

  lemma Finish(res: int, v: int, pos: nat, end: nat, target: int, m: int)
    requires m > 0 && Going(res, v, 0, pos, end, target, m)
    ensures MultipleOf(res, target, v, m)
  {
    assert v * (0 * Pow2(pos)) == 0;
    Commute(v, target);
  }

  /** Adds up shifted copies of the left operand, item by item of the right one. */
  method Multiply(lhs: seq<nat>, rhs: seq<nat>) returns (res: seq<nat>)
    requires Wide(lhs) && Wide(rhs) && |lhs| > 0
    ensures Wide(res) && |res| == |lhs| && Value(res) == Value(lhs) * Value(rhs) % Size(|lhs|)
  {
    hide Value, Size, Pow2, Cong, Resize, Partway, Item, MultipleOf;
    var n := |lhs|;
    ghost var m, v, r := Size(n), Value(lhs), Resize(rhs, n);
    ResizeCong(rhs, n);
    res := seq(n, i => 0);
    ValueZeros(res);
    var lhsTwo := ShiftLeft(lhs, 1);
    var lhs2 := Plus(lhs, lhsTwo);
    var lhsFour := ShiftLeft(lhs, 2);
    var lhs3 := Plus(lhs2, lhsFour);
    SmallMultiples(v, Value(lhsTwo), Value(lhsFour), Value(lhs2), Value(lhs3), m);
    NothingYet(r, v, m);
    for i := 0 to n
      invariant Wide(res) && |res| == n && MultipleOf(Value(res), Value(r[..i]), v, m)
    {
      ItemStarts(rhs, n, i, Value(res), v, m);
      res := AddItem(res, Copies(lhs, lhs2, lhs3), Item(rhs, i), i * 64, Value(r[..i + 1]));
    }
    assert r[..n] == r;
    ValueFits(res);
    Product(Value(res), v, Value(r), Value(rhs), m);
  }

  // ---------- 256 bits ----------

  const DOUBLE := BASE * BASE

  lemma FourItems(a: seq<nat>)
    requires |a| == 4
    ensures Value(a) == a[0] + BASE * a[1] + DOUBLE * (a[2] + BASE * a[3]) && Size(4) == DOUBLE * DOUBLE
  {
    assert a[1..][1..] == a[2..] && a[2..][1..] == a[3..] && a[3..][1..] == [];
    assert Value(a[3..]) == a[3] && Value(a[2..]) == a[2] + BASE * a[3];
    assert Value(a[1..]) == a[1] + BASE * Value(a[2..]);
    assert Size(1) == BASE && Size(2) == BASE * Size(1) && Size(3) == BASE * Size(2);
  }

  /** The partial products of two 256-bit numbers, by weight. */
  lemma Expand(a0: int, a1: int, a23: int, b0: int, b1: int, b23: int)
    ensures (a0 + BASE * a1 + DOUBLE * a23) * (b0 + BASE * b1 + DOUBLE * b23)
         == a0 * b0 + BASE * (a1 * b0 + a0 * b1)
          + DOUBLE * (a23 * (b0 + BASE * b1) + (a0 + BASE * a1) * b23 + a1 * b1) + DOUBLE * DOUBLE * (a23 * b23)
  {
    var a01, b01 := a0 + BASE * a1, b0 + BASE * b1;
    assert (a01 + DOUBLE * a23) * (b01 + DOUBLE * b23)
        == a01 * b01 + DOUBLE * (a23 * b01) + DOUBLE * (a01 * b23) + DOUBLE * DOUBLE * (a23 * b23) by {
      Foil(a01, a23, b01, b23, DOUBLE);
    }
    Foil(a0, a1, b0, b1, BASE);
  }

  lemma Foil(a: int, b: int, c: int, d: int, w: int)
    ensures (a + w * b) * (c + w * d) == a * c + w * (b * c) + w * (a * d) + w * w * (b * d)
  {
    assert (a + w * b) * (c + w * d) == a * (c + w * d) + w * b * (c + w * d);
    assert a * (w * d) == w * (a * d);
    assert w * b * (c + w * d) == w * (b * c) + w * b * (w * d);
    assert w * b * (w * d) == w * w * (b * d);
  }

  /** A product of 128-bit numbers. */
  function Mul128(a: nat, b: nat): nat {
    a * b % DOUBLE
  }

  lemma Mul128Exact(a: nat, b: nat)
    requires a < BASE && b < BASE
    ensures Mul128(a, b) == Times(a, b)
  {
    assert a * b <= (BASE - 1) * (BASE - 1) by { MulMonotone(b, BASE - 1, a); MulMonotone(a, BASE - 1, BASE - 1); }
    ModSmall(a * b, DOUBLE);
  }

  function Add128(a: nat, b: nat): nat { (a + b) % DOUBLE }

  /** The halves of a 128-bit number, and the low half moved up. */
  function Low(x: nat): nat { x % BASE }

  function High(x: nat): nat { x / BASE }

  function Up(x: nat): nat { x * BASE % DOUBLE }

  function Next(x: nat): nat { (x + 1) % BASE }

  lemma Halves(x: nat)
    requires x < DOUBLE
    ensures x == Low(x) + BASE * High(x) && Low(x) < BASE && High(x) < BASE && Up(x) == BASE * Low(x)
  {
    DivModUnique(x * BASE, DOUBLE, x / BASE, x % BASE * BASE);
  }

  /** An addition of 128-bit numbers wraps exactly if the sum is below either of them. */
  lemma Wraps(x: nat, y: nat)
    requires x < DOUBLE && y < DOUBLE
    ensures x + y == Add128(x, y) + DOUBLE * AsNat(Add128(x, y) < y) && Add128(x, y) < DOUBLE
    ensures x + y < DOUBLE ==> Add128(x, y) == x + y
  {
  }

  lemma Increments(x: nat)
    requires x < BASE
    ensures x + 1 == Next(x) + BASE * AsNat(x == BASE - 1) && Next(x) < BASE
  {
  }

  lemma Narrows(r: nat)
    ensures r == r % DOUBLE + DOUBLE * (r / DOUBLE) && r % DOUBLE < DOUBLE
  {
  }

  ghost function Times(a: int, b: int): int { a * b }

  /** The partial products, reduced as the code reduces them. */
  lemma Reduced(a0: nat, a1: nat, a23: nat, b0: nat, b1: nat, b23: nat) returns (k: int)
    requires a0 < BASE && a1 < BASE && b0 < BASE && b1 < BASE
    ensures Mul128(a0, b0) < DOUBLE && Mul128(a1, b0) < DOUBLE && Mul128(a0, b1) < DOUBLE && (b1 == 0 ==> Mul128(a0, b1) == 0)
    ensures (a0 + BASE * a1 + DOUBLE * a23) * (b0 + BASE * b1 + DOUBLE * b23)
         == Mul128(a0, b0) + BASE * (Mul128(a1, b0) + Mul128(a0, b1))
          + DOUBLE * (Mul128(a23, b0 + BASE * b1) + Mul128(a0 + BASE * a1, b23) + Mul128(a1, b1)) + DOUBLE * DOUBLE * k
  {
    hide Mul128;
    Mul128Is(a0, b0);
    Mul128Is(a1, b0);
    Mul128Is(a0, b1);
    k := ReducedTimes(a0, a1, a23, b0, b1, b23);
  }

  lemma ReducedTimes(a0: nat, a1: nat, a23: nat, b0: nat, b1: nat, b23: nat) returns (k: int)
    requires a0 < BASE && a1 < BASE && b0 < BASE && b1 < BASE
    ensures Times(a0 + BASE * a1 + DOUBLE * a23, b0 + BASE * b1 + DOUBLE * b23)
         == Mul128(a0, b0) + BASE * (Mul128(a1, b0) + Mul128(a0, b1))
          + DOUBLE * (Mul128(a23, b0 + BASE * b1) + Mul128(a0 + BASE * a1, b23) + Mul128(a1, b1)) + DOUBLE * DOUBLE * k
  {
    hide Mul128, Times;
    ExpandTimes(a0, a1, a23, b0, b1, b23);
    Mul128Exact(a0, b0);
    Mul128Exact(a1, b0);
    Mul128Exact(a0, b1);
    Mul128Exact(a1, b1);
    Mul128Is(a23, b0 + BASE * b1);
    Mul128Is(a0 + BASE * a1, b23);
    var s, t := Times(a23, b0 + BASE * b1), Times(a0 + BASE * a1, b23);
    k := s / DOUBLE + t / DOUBLE + Times(a23, b23);
  }

  lemma ExpandTimes(a0: int, a1: int, a23: int, b0: int, b1: int, b23: int)
    ensures Times(a0 + BASE * a1 + DOUBLE * a23, b0 + BASE * b1 + DOUBLE * b23)
         == Times(a0, b0) + BASE * (Times(a1, b0) + Times(a0, b1))
          + DOUBLE * (Times(a23, b0 + BASE * b1) + Times(a0 + BASE * a1, b23) + Times(a1, b1)) + DOUBLE * DOUBLE * Times(a23, b23)
  {
    Expand(a0, a1, a23, b0, b1, b23);
  }

  lemma Mul128Is(a: nat, b: nat)
    ensures Mul128(a, b) == Times(a, b) % DOUBLE < DOUBLE && (b == 0 ==> Mul128(a, b) == 0)
  {
  }

  /** What a partial result stands for: item 0, items 1 and 2 together, item 3 and its wraps. */
  ghost function Total(item0: int, middle: int, item3: int, k: int): int {
    item0 + BASE * middle + DOUBLE * BASE * item3 + DOUBLE * DOUBLE * k
  }

  lemma TotalStarts(r01: nat, r: nat)
    requires r01 < DOUBLE
    ensures Add128(High(r01), Up(r % DOUBLE)) < DOUBLE
    ensures High(r % DOUBLE) < BASE && Low(r01) < BASE
    ensures r01 + DOUBLE * r == Total(Low(r01), Add128(High(r01), Up(r % DOUBLE)), High(r % DOUBLE), r / DOUBLE)
  {
    hide Add128, Low, High, Up;
    Narrows(r);
    Halves(r01);
    Halves(r % DOUBLE);
    Wraps(High(r01), Up(r % DOUBLE));
  }

  lemma TotalMiddle(item0: int, middle: int, item3: int, k: int, more: int)
    ensures Total(item0, middle + more, item3, k) == Total(item0, middle, item3, k) + BASE * more
  {
  }

  lemma TotalWraps(item0: int, middle: int, item3: int, k: int, more: int)
    ensures Total(item0, middle, item3, k + more) == Total(item0, middle, item3, k) + DOUBLE * DOUBLE * more
  {
  }

  /** A wrap of the middle is one more of the top item. */
  lemma TotalCarry(item0: int, middle: int, item3: nat, k: int)
    requires item3 < BASE
    ensures Next(item3) < BASE
    ensures Total(item0, middle + DOUBLE, item3, k) == Total(item0, middle, Next(item3), k + AsNat(item3 == BASE - 1))
  {
    Increments(item3);
  }

  /** Sums the partial products of a 256-bit multiplication, carrying into the top item. */
  method SumProducts(r01: nat, cross: nat, hasY: bool, r12y: nat, r: nat) returns (res: seq<nat>, ghost k: int)
    requires r01 < DOUBLE && cross < DOUBLE && r12y < DOUBLE && (!hasY ==> r12y == 0)
    ensures Wide(res) && |res| == 4
    ensures r01 + BASE * (cross + r12y) + DOUBLE * r == Total(res[0], res[1] + BASE * res[2], res[3], k)
  {
    hide Add128, Low, High, Up, Next, Total;
    var r23 := r % DOUBLE;
    TotalStarts(r01, r);
    var r12: nat := Add128(High(r01), Up(r23));
    var r12x: nat := cross;
    var item0, item3: nat := Low(r01), High(r23);
    k := r / DOUBLE;
    TotalMiddle(item0, r12, item3, k, cross + r12y);
    Wraps(cross, r12y);
    if hasY {
      r12x := Add128(cross, r12y);
      if r12x < r12y {
        TotalCarry(item0, r12 + r12x, item3, k);
        k := k + AsNat(item3 == BASE - 1);
        item3 := Next(item3);
      }
    }
    Wraps(r12, r12x);
    ghost var sum := r12 + r12x;
    r12 := Add128(r12, r12x);
    if r12 < r12x {
      TotalCarry(item0, r12, item3, k);
      k := k + AsNat(item3 == BASE - 1);
      item3 := Next(item3);
    }
    Halves(r12);
    res := [item0, Low(r12), High(r12), item3];
  }

  /** The 256-bit product; `b01` is the 128-bit value the right operand converts to, `size` its bytes. */
  method Multiply256(lhs: seq<nat>, b01: nat, rhs: seq<nat>, size: nat) returns (res: seq<nat>)
    requires Wide(lhs) && |lhs| == 4 && Wide(rhs) && (size > 16 ==> |rhs| == 4)
    requires b01 < DOUBLE && (size <= 8 ==> b01 < BASE)
    ensures Wide(res) && |res| == 4
    ensures Value(res) == Value(lhs) * (b01 + DOUBLE * if size > 16 then rhs[2] + BASE * rhs[3] else 0) % Size(4)
  {
    hide Value, Size, Mul128;
    var a01, a23 := lhs[1] * BASE + lhs[0], lhs[3] * BASE + lhs[2];
    var a0, a1 := lhs[0], lhs[1];
    var b0, b1: nat, b23: nat := b01 % BASE, 0, 0;
    if size > 8 { b1 := b01 / BASE; }
    if size > 16 { b23 := rhs[3] * BASE + rhs[2]; }
    ghost var j := Reduced(a0, a1, a23, b0, b1, b23);
    ghost var k;
    res, k := SumProducts(Mul128(a0, b0), Mul128(a1, b0), size > 8, Mul128(a0, b1),
                          Mul128(a23, b01) + Mul128(a01, b23) + Mul128(a1, b1));
    TotalWraps(res[0], res[1] + BASE * res[2], res[3], k, j);
    hide Total;
    Final(lhs, res, b01, b23, k + j);
  }

  lemma Final(lhs: seq<nat>, res: seq<nat>, b01: nat, b23: nat, k: int)
    requires |lhs| == 4 && |res| == 4 && Wide(res)
    requires (lhs[0] + BASE * lhs[1] + DOUBLE * (lhs[2] + BASE * lhs[3])) * (b01 + DOUBLE * b23)
          == Total(res[0], res[1] + BASE * res[2], res[3], k)
    ensures Value(res) == Value(lhs) * (b01 + DOUBLE * b23) % Size(4)
  {
    hide Value, Size;
    FourItems(lhs);
    FourItems(res);
    ValueFits(res);
    Close(Value(res), Value(lhs) * (b01 + DOUBLE * b23), k, Size(4));
  }

  lemma Close(v: int, product: int, k: int, m: int)
    requires 0 <= v < m && product == v + m * k
    ensures v == product % m
  {
    Commute(m, k);
    DivModUnique(product, m, k, v);
  }

  lemma DropsMultiple(u: int, t: int, m: int)
    requires m > 0
    ensures Cong(u + BASE * t, u, BASE * m) <==> t % m == 0
  {
    if t % m == 0 {
      assert t == t / m * m;
      assert BASE * t == t / m * (BASE * m);
      CongWitness(u + BASE * t, u, BASE * m, t / m);
    }
    if Cong(u + BASE * t, u, BASE * m) {
      var k := CongMultiple(u + BASE * t, u, BASE * m);
      assert BASE * t == k * (BASE * m) == BASE * (k * m);
      MultipleMod(k, m);
    }
  }

  /** Two wide operands: the right one converts to its lowest item only, so item 1 is not multiplied.
      The product is right exactly if that item contributes nothing modulo 2^256. */
  method MultiplyWide256(lhs: seq<nat>, rhs: seq<nat>) returns (res: seq<nat>)
    requires Wide(lhs) && Wide(rhs) && |lhs| == 4 && |rhs| == 4
    ensures Wide(res) && |res| == 4
    ensures Value(res) == Value(lhs) * (Value(rhs) - BASE * rhs[1]) % Size(4)
    ensures Value(res) == Value(lhs) * Value(rhs) % Size(4) <==> Value(lhs) * rhs[1] % Size(3) == 0
  {
    hide Value, Size, Cong;
    res := Multiply256(lhs, rhs[0], rhs, 32);
    FourItems(rhs);
    MissingItem(Value(lhs), Value(rhs), rhs[1], Size(3));
    SizeNext(3);
  }

  lemma MissingItem(a: int, b: int, b1: int, m: int)
    requires m > 0
    ensures a * (b - BASE * b1) % (BASE * m) == a * b % (BASE * m) <==> a * b1 % m == 0
  {
    var u := a * (b - BASE * b1);
    assert u + BASE * (a * b1) == a * b;
    DropsMultiple(u, a * b1, m);
  }

  /** 1 times 2^64 comes out as 0. */
  lemma ItemOneLost()
    ensures var lhs, rhs := [1, 0, 0, 0], [0, 1, 0, 0];
            && Value(lhs) * (Value(rhs) - BASE * rhs[1]) % Size(4) == 0
            && Value(lhs) * Value(rhs) % Size(4) == BASE
  {
    FourItems([1, 0, 0, 0]);
    FourItems([0, 1, 0, 0]);
    ModSmall(0, Size(4));
    assert Size(4) == BASE * Size(3) && Size(3) == BASE * Size(2) && Size(2) == BASE * Size(1) && Size(1) == BASE;
    ModSmall(BASE, Size(4));
  }

  /** A built-in right operand of at most 64 bits. */
  method MultiplyWord(lhs: seq<nat>, word: nat) returns (res: seq<nat>)
    requires Wide(lhs) && |lhs| > 0 && word < BASE
    ensures Wide(res) && |res| == |lhs| && Value(res) == Value(lhs) * word % Size(|lhs|)
  {
    hide Size;
    assert Value([word]) == word + BASE * Value([]) == word;
    hide Value;
    if |lhs| == 4 {
      res := Multiply256(lhs, word, [word], 8);
    } else {
      res := Multiply(lhs, [word]);
    }
  }
}
