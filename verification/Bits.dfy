/** Bitwise operators on natural numbers, and what they do bit by bit. */
module Bits {
  import opened Arith

  predicate Bit(x: nat, i: nat) {
    if i == 0 then x % 2 == 1 else Bit(x / 2, i - 1)
  }

  function And(x: nat, y: nat): (r: nat) {
    if x == 0 || y == 0 then 0 else AsNat(x % 2 == 1 && y % 2 == 1) + 2 * And(x / 2, y / 2)
  }

  function Or(x: nat, y: nat): (r: nat) {
    if x == 0 then y else if y == 0 then x else AsNat(x % 2 == 1 || y % 2 == 1) + 2 * Or(x / 2, y / 2)
  }

  function Xor(x: nat, y: nat): (r: nat) {
    if x == 0 then y else if y == 0 then x else AsNat((x % 2 == 1) != (y % 2 == 1)) + 2 * Xor(x / 2, y / 2)
  }

  /** The complement of a `w`-bit word. */
  function Not(x: nat, w: nat): (r: nat)
    requires x < Pow2(w)
  {
    Pow2(w) - 1 - x
  }

  lemma {:induction false} ZeroBits(i: nat)
    ensures !Bit(0, i)
  {
    if i > 0 { ZeroBits(i - 1); }
  }

  /** The bits of a number that is put together from its lowest bit and the rest. */
  lemma BitJoin(b: bool, r: nat, i: nat)
    ensures Bit(AsNat(b) + 2 * r, i) == if i == 0 then b else Bit(r, i - 1)
  {
    assert (AsNat(b) + 2 * r) / 2 == r;
  }

  lemma {:induction false} BitAnd(x: nat, y: nat, i: nat)
    ensures Bit(And(x, y), i) == (Bit(x, i) && Bit(y, i))
  {
    ZeroBits(i);
    if x > 0 && y > 0 {
      BitJoin(x % 2 == 1 && y % 2 == 1, And(x / 2, y / 2), i);
      if i > 0 { BitAnd(x / 2, y / 2, i - 1); }
    }
  }

  lemma {:induction false} BitOr(x: nat, y: nat, i: nat)
    ensures Bit(Or(x, y), i) == (Bit(x, i) || Bit(y, i))
  {
    ZeroBits(i);
    if x > 0 && y > 0 {
      BitJoin(x % 2 == 1 || y % 2 == 1, Or(x / 2, y / 2), i);
      if i > 0 { BitOr(x / 2, y / 2, i - 1); }
    }
  }

  lemma {:induction false} BitXor(x: nat, y: nat, i: nat)
    ensures Bit(Xor(x, y), i) == (Bit(x, i) != Bit(y, i))
  {
    ZeroBits(i);
    if x > 0 && y > 0 {
      BitJoin((x % 2 == 1) != (y % 2 == 1), Xor(x / 2, y / 2), i);
      if i > 0 { BitXor(x / 2, y / 2, i - 1); }
    }
  }

  lemma NotHalf(x: nat, p: nat)
    requires x < 2 * p
    ensures (2 * p - 1 - x) / 2 == p - 1 - x / 2 && (2 * p - 1 - x) % 2 == 1 - x % 2
  {
    DivModUnique(2 * p - 1 - x, 2, p - 1 - x / 2, 1 - x % 2);
  }

  lemma {:induction false} BitNot(x: nat, w: nat, i: nat)
    requires x < Pow2(w) && i < w
    ensures Bit(Not(x, w), i) == !Bit(x, i)
    decreases i
  {
    hide Pow2;
    Pow2Next(w - 1);
    NotHalf(x, Pow2(w - 1));
    if i > 0 { BitNot(x / 2, w - 1, i - 1); }
  }

  /** Results of the operators are no wider than their arguments. */
  lemma {:induction false} Width(x: nat, y: nat, w: nat)
    requires x < Pow2(w) && y < Pow2(w)
    ensures And(x, y) < Pow2(w) && Or(x, y) < Pow2(w) && Xor(x, y) < Pow2(w)
  {
    if w > 0 { Width(x / 2, y / 2, w - 1); }
  }

  lemma {:induction false} AndAtMost(x: nat, y: nat)
    ensures And(x, y) <= x && And(x, y) <= y
  {
    if x > 0 && y > 0 { AndAtMost(x / 2, y / 2); }
  }

  lemma {:induction false} HighBit(x: nat, w: nat, i: nat)
    requires x < Pow2(w) && w <= i
    ensures !Bit(x, i)
  {
    if w == 0 { ZeroBits(i); } else { HighBit(x / 2, w - 1, i - 1); }
  }

  /** Words with the same bits are equal. */
  lemma {:induction false} SameBits(x: nat, y: nat, w: nat)
    requires x < Pow2(w) && y < Pow2(w) && forall i: nat | i < w :: Bit(x, i) == Bit(y, i)
    ensures x == y
  {
    if w > 0 {
      assert Bit(x, 0) == Bit(y, 0);
      forall i: nat | i < w - 1 ensures Bit(x / 2, i) == Bit(y / 2, i) {
        assert Bit(x, i + 1) == Bit(y, i + 1);
      }
      SameBits(x / 2, y / 2, w - 1);
    }
  }

  /** `x >> s` */
  function Shr(x: nat, s: nat): (r: nat)
    ensures r <= x
  {
    if s == 0 then x else Shr(x / 2, s - 1)
  }

  /** Division by `2 * p` halves first. */
  lemma ModTwo(x: nat, p: nat)
    requires p > 0
    ensures x % (2 * p) == x % 2 + 2 * (x / 2 % p) && x / (2 * p) == x / 2 / p
  {
    var h := x / 2;
    assert x == h / p * (2 * p) + (x % 2 + 2 * (h % p));
    DivModUnique(x, 2 * p, h / p, x % 2 + 2 * (h % p));
  }

  lemma {:induction false} BitShr(x: nat, s: nat, i: nat)
    ensures Bit(Shr(x, s), i) == Bit(x, i + s)
  {
    if s > 0 { BitShr(x / 2, s - 1, i); }
  }

  lemma {:induction false} BitMask(n: nat, i: nat)
    ensures Bit(Pow2(n) - 1, i) == (i < n)
  {
    if n == 0 { ZeroBits(i); }
    else if i > 0 {
      assert (Pow2(n) - 1) / 2 == Pow2(n - 1) - 1;
      BitMask(n - 1, i - 1);
    }
  }

  lemma AndOnes(x: nat, m: nat)
    ensures And(x, 2 * m + 1) == x % 2 + 2 * And(x / 2, m)
  {
    assert (2 * m + 1) / 2 == m && (2 * m + 1) % 2 == 1;
  }

  lemma DoubleMask(x: nat, p: nat)
    requires p > 0 && And(x / 2, p - 1) == x / 2 % p
    ensures And(x, 2 * p - 1) == x % (2 * p)
  {
    hide And;
    AndOnes(x, p - 1);
    ModTwo(x, p);
  }

  lemma AndNothing(x: nat)
    ensures And(x, 0) == 0 == x % 1
  {
  }

  /** A mask of `n` ones keeps the remainder. */
  lemma {:induction false} AndMask(x: nat, n: nat)
    ensures And(x, Pow2(n) - 1) == x % Pow2(n)
  {
    hide And, Pow2;
    if n == 0 {
      Pow2Next(0);
      AndNothing(x);
    } else {
      AndMask(x / 2, n - 1);
      Pow2Next(n - 1);
      DoubleMask(x, Pow2(n - 1));
    }
  }

  /** Testing a single bit. */
  lemma {:induction false} AndPow2(x: nat, n: nat)
    ensures And(x, Pow2(n)) == if Bit(x, n) then Pow2(n) else 0
  {
    if n == 0 {
      assert And(x / 2, 0) == 0;
    } else {
      AndPow2(x / 2, n - 1);
      if x == 0 { ZeroBits(n); }
    }
  }

  /** Numbers without common bits: the OR is a sum. */
  lemma {:induction false} OrIsSum(a: nat, b: nat, n: nat)
    requires a % Pow2(n) == 0 && b < Pow2(n)
    ensures Or(a, b) == a + b && Or(b, a) == a + b && Xor(a, b) == a + b
  {
    if n > 0 && a > 0 && b > 0 {
      ModTwo(a, Pow2(n - 1));
      OrIsSum(a / 2, b / 2, n - 1);
    }
  }

  /** The operators work on the two parts of a word separately. */
  lemma {:induction false} SplitOps(a: nat, b: nat, x: nat, y: nat, n: nat)
    requires a < Pow2(n) && b < Pow2(n)
    ensures And(a + Pow2(n) * x, b + Pow2(n) * y) == And(a, b) + Pow2(n) * And(x, y)
    ensures Or(a + Pow2(n) * x, b + Pow2(n) * y) == Or(a, b) + Pow2(n) * Or(x, y)
  {
    hide And, Or;
    if n == 0 {
      ZeroOps();
    } else {
      var p := Pow2(n - 1);
      hide Pow2;
      SplitOps(a / 2, b / 2, x, y, n - 1);
      Half(a, x, p);
      Half(b, y, p);
      HalfOps(a + 2 * p * x, b + 2 * p * y);
      HalfOps(a, b);
      Double(p, And(x, y));
      Double(p, Or(x, y));
    }
  }

  lemma ZeroOps()
    ensures And(0, 0) == 0 && Or(0, 0) == 0
  {
  }

  lemma Double(p: nat, z: nat)
    ensures 2 * p * z == 2 * (p * z)
  {
  }

  lemma Half(a: nat, x: nat, p: nat)
    ensures (a + 2 * p * x) / 2 == a / 2 + p * x && (a + 2 * p * x) % 2 == a % 2
  {
    assert 2 * p * x == 2 * (p * x);
  }

  /** The operators, one bit and the rest. */
  lemma HalfOps(a: nat, b: nat)
    ensures And(a, b) == AsNat(a % 2 == 1 && b % 2 == 1) + 2 * And(a / 2, b / 2)
    ensures Or(a, b) == AsNat(a % 2 == 1 || b % 2 == 1) + 2 * Or(a / 2, b / 2)
  {
    assert And(0, b / 2) == 0 && And(a / 2, 0) == 0 && Or(a / 2, 0) == a / 2 && Or(0, b / 2) == b / 2;
  }

  /** `x << s` */
  lemma {:induction false} BitShl(x: nat, s: nat, i: nat)
    ensures Bit(x * Pow2(s), i) == (i >= s && Bit(x, i - s))
  {
    if s > 0 {
      var y := x * Pow2(s - 1);
      assert x * Pow2(s) == 2 * y;
      if i > 0 {
        BitShl(x, s - 1, i - 1);
        assert (2 * y) / 2 == y;
      }
    }
  }
}
