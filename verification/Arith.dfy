/** Division, remainder and powers of two: the few nonlinear facts the other modules use. */
module Arith {

  /** A flag as a number. */
  function AsNat(b: bool): nat { if b then 1 else 0 }

  lemma MulAtLeast(k: int, m: int)
    requires k >= 1 && m >= 0
    ensures k * m >= m
  {
  }

  lemma MulMonotone(a: int, b: int, p: int)
    requires a <= b && p >= 0
    ensures a * p <= b * p && p * a <= p * b
  {
    assert b * p == a * p + (b - a) * p;
  }

  lemma DivModUnique(x: int, m: int, q: int, r: int)
    requires m > 0 && x == q * m + r && 0 <= r < m
    ensures x / m == q && x % m == r
  {
    var q', r' := x / m, x % m;
    assert x == m * q' + r';
    assert (q' - q) * m == r - r';
    if q' > q {
      MulAtLeast(q' - q, m);
      assert false;
    } else if q' < q {
      MulAtLeast(q - q', m);
      assert false;
    }
  }

  lemma MultipleMod(a: int, m: int)
    requires m > 0
    ensures (a * m) % m == 0
  {
    DivModUnique(a * m, m, a, 0);
  }

  /** Adding a multiple of the modulus changes nothing. */
  lemma ModAddMultiple(x: int, k: int, m: int)
    requires m > 0
    ensures (x + k * m) % m == x % m && (x + k * m) / m == x / m + k
  {
    assert x == x / m * m + x % m;
    assert x + k * m == (x / m + k) * m + x % m;
    DivModUnique(x + k * m, m, x / m + k, x % m);
  }

  lemma ModIdem(x: int, m: int)
    requires m > 0
    ensures x % m % m == x % m
  {
    DivModUnique(x % m, m, 0, x % m);
  }

  lemma ModSmall(x: int, m: int)
    requires 0 <= x < m
    ensures x % m == x && x / m == 0
  {
    DivModUnique(x, m, 0, x);
  }

  lemma DivBelow(u: nat, p: nat, limit: nat)
    requires p > 0 && u < limit * p
    ensures u / p < limit && u % p < p && u == u / p * p + u % p
  {
    var q := u / p;
    assert u == q * p + u % p;
    if q >= limit { MulAtLeast(q - limit + 1, p); }
  }

  lemma DivAtMost(x: nat, p: nat)
    requires p > 0
    ensures 0 <= x / p <= x
  {
    var q := x / p;
    assert x == q * p + x % p;
    MulMonotone(1, p, q);
  }

  /** A product by `p`, split at a multiple of `p`. */
  lemma SplitProduct(x: nat, p: nat, q: nat, m: nat)
    requires p > 0 && q > 0 && p * q == m && x < m
    ensures x * p % m == x % q * p && x * p % m % p == 0
    ensures x * p == x * p % m + m * (x / q) && x / q < p
  {
    DivBelow(x, q, p);
    var h, l := x / q, x % q;
    assert x * p == h * m + l * p by { assert h * q * p == h * m; }
    MulMonotone(l + 1, q, p);
    DivModUnique(x * p, m, h, l * p);
    MultipleMod(l, p);
  }

  // ---------- Congruence ----------

  /** `a` and `b` have the same remainder modulo `m`. */
  ghost predicate Cong(a: int, b: int, m: int)
    requires m > 0
  {
    a % m == b % m
  }

  lemma CongWitness(a: int, b: int, m: int, k: int)
    requires m > 0 && a == b + k * m
    ensures Cong(a, b, m)
  {
    ModAddMultiple(b, k, m);
  }

  lemma CongMultiple(a: int, b: int, m: int) returns (k: int)
    requires m > 0 && Cong(a, b, m)
    ensures a == b + k * m
  {
    k := a / m - b / m;
    assert a == a / m * m + a % m && b == b / m * m + b % m;
    assert (a / m - b / m) * m == a / m * m - b / m * m;
  }

  lemma Reflexive(a: int, m: int)
    requires m > 0
    ensures Cong(a, a, m)
  {
  }

  lemma CongTrans(a: int, b: int, c: int, m: int)
    requires m > 0 && Cong(a, b, m) && Cong(b, c, m)
    ensures Cong(a, c, m)
  {
  }

  lemma CongAdd(a: int, b: int, c: int, d: int, m: int)
    requires m > 0 && Cong(a, b, m) && Cong(c, d, m)
    ensures Cong(a + c, b + d, m) && Cong(a - c, b - d, m)
  {
    hide Cong;
    var k := CongMultiple(a, b, m);
    var l := CongMultiple(c, d, m);
    assert a + c == b + d + (k + l) * m;
    assert a - c == b - d + (k - l) * m;
    CongWitness(a + c, b + d, m, k + l);
    CongWitness(a - c, b - d, m, k - l);
  }

  lemma CongMul(a: int, b: int, c: int, d: int, m: int)
    requires m > 0 && Cong(a, b, m) && Cong(c, d, m)
    ensures Cong(a * c, b * d, m)
  {
    hide Cong;
    var k := CongMultiple(a, b, m);
    var l := CongMultiple(c, d, m);
    Multiplied(a, b, c, d, k, l, m);
    CongWitness(a * c, b * d, m, k * c + b * l);
  }

  lemma Multiplied(a: int, b: int, c: int, d: int, k: int, l: int, m: int)
    requires a == b + k * m && c == d + l * m
    ensures a * c == b * d + (k * c + b * l) * m
  {
    calc {
      a * c;
      b * c + k * m * c;
      b * (d + l * m) + k * c * m;
      b * d + b * l * m + k * c * m;
      b * d + (k * c + b * l) * m;
    }
  }

  lemma CongMod(a: int, m: int)
    requires m > 0
    ensures Cong(a % m, a, m)
  {
    ModIdem(a, m);
  }

  /** A congruence modulo a multiple holds modulo the divisor. */
  lemma CongDivisor(a: int, b: int, m: int, d: int)
    requires m > 0 && d > 0 && Cong(a, b, d * m)
    ensures Cong(a, b, m)
  {
    var k := CongMultiple(a, b, d * m);
    assert k * (d * m) == k * d * m;
    CongWitness(a, b, m, k * d);
  }

  /** What is left of a sum once the multiple of `m` that it carries is dropped. */
  lemma ReduceSum(a: int, x: int, y: int, v: int, k: int, m: int)
    requires m > 0 && Cong(x, y, m) && a + y == v + k * m && 0 <= v < m
    ensures v == (a + x) % m
  {
    var c := CongMultiple(x, y, m);
    assert (k + c) * m == k * m + c * m;
    DivModUnique(a + x, m, k + c, v);
  }

  lemma ReduceDifference(a: int, x: int, y: int, v: int, k: int, m: int)
    requires m > 0 && Cong(x, y, m) && v + y == a + k * m && 0 <= v < m
    ensures v == (a - x) % m
  {
    var c := CongMultiple(x, y, m);
    assert (-k - c) * m == -(k * m) - c * m;
    DivModUnique(a - x, m, -k - c, v);
  }

  // ---------- Powers of two ----------

  function Pow2(k: nat): (p: nat)
    ensures p >= 1
  {
    if k == 0 then 1 else 2 * Pow2(k - 1)
  }

  lemma Pow2Next(k: nat)
    ensures Pow2(0) == 1 && Pow2(k + 1) == 2 * Pow2(k)
  {
  }

  lemma {:induction false} Pow2Add(a: nat, b: nat)
    ensures Pow2(a + b) == Pow2(a) * Pow2(b)
  {
    if a > 0 {
      Pow2Add(a - 1, b);
      assert Pow2(a + b) == 2 * (Pow2(a - 1) * Pow2(b));
    }
  }

  lemma {:induction false} Pow2Monotone(a: nat, b: nat)
    requires a <= b
    ensures Pow2(a) <= Pow2(b)
    ensures a < b ==> 2 * Pow2(a) <= Pow2(b)
  {
    Pow2Add(a, b - a);
    MulAtLeast(Pow2(b - a), Pow2(a));
    if a < b {
      Pow2Add(a, b - a);
      assert Pow2(b) == Pow2(a) * (2 * Pow2(b - a - 1));
      MulAtLeast(Pow2(b - a - 1), 2 * Pow2(a));
    }
  }

  /** The machine widths. */
  lemma MachineWidths()
    ensures Pow2(8) == 0x100 && Pow2(16) == 0x1_0000 && Pow2(32) == 0x1_0000_0000
    ensures Pow2(64) == 0x1_0000_0000_0000_0000 && Pow2(128) == Pow2(64) * Pow2(64)
  {
    hide Pow2;
    Pow2OfFour();
    Pow2Add(4, 4);
    Pow2Add(8, 8);
    Pow2Add(16, 16);
    Pow2Add(32, 32);
    Pow2Add(64, 64);
  }

  lemma Pow2OfFour()
    ensures Pow2(4) == 16
  {
    assert Pow2(2) == 4;
  }

  /** The index of the highest set bit. */
  function Log2(n: nat): nat
    requires n > 0
  {
    if n == 1 then 0 else 1 + Log2(n / 2)
  }

  lemma {:induction false} Log2Means(n: nat)
    requires n > 0
    ensures Pow2(Log2(n)) <= n < Pow2(Log2(n) + 1)
  {
    if n > 1 { Log2Means(n / 2); }
  }

  lemma Log2Is(n: nat, k: nat)
    requires n > 0 && Pow2(k) <= n < Pow2(k + 1)
    ensures Log2(n) == k
  {
    Log2Means(n);
    if Log2(n) < k { Pow2Monotone(Log2(n) + 1, k); }
    if Log2(n) > k { Pow2Monotone(k + 1, Log2(n)); }
  }

  // ---------- Rounding up ----------

  /** The least multiple of `unit` that is at least `x`. */
  ghost predicate LeastMultiple(m: nat, x: nat, unit: nat)
    requires unit > 0
  {
    m % unit == 0 && x <= m < x + unit
  }

  lemma LeastUnique(m: nat, m': nat, x: nat, unit: nat)
    requires unit > 0 && LeastMultiple(m, x, unit) && LeastMultiple(m', x, unit)
    ensures m == m'
  {
    var a, b := m / unit, m' / unit;
    assert m == a * unit && m' == b * unit;
    if a < b { MulMonotone(a + 1, b, unit); } else if b < a { MulMonotone(b + 1, a, unit); }
  }

  lemma LeastBelow(m: nat, x: nat, unit: nat, a: nat)
    requires unit > 0 && LeastMultiple(m, x, unit) && a % unit == 0 && x <= a
    ensures m <= a
  {
    var p, q := m / unit, a / unit;
    assert m == p * unit && a == q * unit;
    if q < p { MulMonotone(q + 1, p, unit); }
  }
}
