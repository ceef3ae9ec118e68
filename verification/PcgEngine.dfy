/** The linear congruential core of the generators: stepping, jumping and measuring jumps.
    States are `k`-bit words, that is, numbers below `Pow2(k)`. */
module PcgEngine {
  import opened Arith
  import opened Bits

  /** x -> mult * x + plus */
  datatype Affine = Affine(mult: nat, plus: nat)

  function Bump(k: nat, f: Affine, x: nat): (r: nat)
    ensures r < Pow2(k)
  {
    (x * f.mult + f.plus) % Pow2(k)
  }

  /** `n` steps of the generator. */
  function Iterate(k: nat, f: Affine, n: nat, x: nat): (r: nat)
    ensures x < Pow2(k) ==> r < Pow2(k)
  {
    if n == 0 then x else Iterate(k, f, n - 1, Bump(k, f, x))
  }

  /** The map that makes two steps of `f`, as the loops of `advance` and `distance` square it. */
  function Twice(k: nat, f: Affine): (g: Affine) {
    Affine(f.mult * f.mult % Pow2(k), (f.mult + 1) % Pow2(k) * f.plus % Pow2(k))
  }

  lemma BumpCong(k: nat, f: Affine, g: Affine, x: nat, y: nat)
    requires Cong(f.mult, g.mult, Pow2(k)) && Cong(f.plus, g.plus, Pow2(k)) && Cong(x, y, Pow2(k))
    ensures Bump(k, f, x) == Bump(k, g, y)
  {
    CongMul(x, y, f.mult, g.mult, Pow2(k));
    CongAdd(x * f.mult, y * g.mult, f.plus, g.plus, Pow2(k));
  }

  lemma AffineCompose(x: int, a: int, b: int, c: int, d: int)
    ensures (x * a + b) * c + d == x * (a * c) + (b * c + d)
  {
    assert (x * a + b) * c == x * a * c + b * c;
    assert x * a * c == x * (a * c);
  }

  lemma ExactCompose(k: nat, f: Affine, g: Affine, x: nat)
    ensures Bump(k, Affine(f.mult * g.mult, f.plus * g.mult + g.plus), x) == Bump(k, g, Bump(k, f, x))
  {
    var y := x * f.mult + f.plus;
    CongMod(y, Pow2(k));
    BumpCong(k, g, g, Bump(k, f, x), y);
    AffineCompose(x, f.mult, f.plus, g.mult, g.plus);
  }

  lemma ComposeBumps(k: nat, f: Affine, g: Affine, x: nat)
    ensures var m := Pow2(k);
            Bump(k, Affine(f.mult * g.mult % m, (f.plus * g.mult % m + g.plus) % m), x) == Bump(k, g, Bump(k, f, x))
  {
    var m := Pow2(k);
    var a, b := f.mult * g.mult, f.plus * g.mult;
    CongMod(a, m);
    CongMod(b, m);
    CongAdd(b % m, b, g.plus, g.plus, m);
    CongMod(b % m + g.plus, m);
    BumpCong(k, Affine(a % m, (b % m + g.plus) % m), Affine(a, b + g.plus), x, x);
    ExactCompose(k, f, g, x);
  }

  lemma TwiceReduces(k: nat, f: Affine)
    ensures Cong(Twice(k, f).mult, f.mult * f.mult, Pow2(k)) && Cong(Twice(k, f).plus, (f.mult + 1) * f.plus, Pow2(k))
  {
    hide Cong, Pow2;
    var m := Pow2(k);
    CongMod(f.mult * f.mult, m);
    CongMod(f.mult + 1, m);
    Reflexive(f.plus, m);
    CongMul((f.mult + 1) % m, f.mult + 1, f.plus, f.plus, m);
    CongMod((f.mult + 1) % m * f.plus, m);
    CongTrans(Twice(k, f).plus, (f.mult + 1) % m * f.plus, (f.mult + 1) * f.plus, m);
  }

  lemma TwiceBumps(k: nat, f: Affine, x: nat)
    ensures Bump(k, Twice(k, f), x) == Bump(k, f, Bump(k, f, x))
  {
    hide Cong, Pow2, Bump, Twice;
    TwiceReduces(k, f);
    Reflexive(x, Pow2(k));
    BumpCong(k, Twice(k, f), Affine(f.mult * f.mult, (f.mult + 1) * f.plus), x, x);
    assert (f.mult + 1) * f.plus == f.plus * f.mult + f.plus;
    ExactCompose(k, f, f, x);
  }

  lemma {:induction false} IterateTwice(k: nat, f: Affine, n: nat, x: nat)
    ensures Iterate(k, Twice(k, f), n, x) == Iterate(k, f, 2 * n, x)
    decreases n
  {
    if n > 0 {
      TwiceBumps(k, f, x);
      IterateTwice(k, f, n - 1, Bump(k, f, Bump(k, f, x)));
      assert Iterate(k, f, 2 * n, x) == Iterate(k, f, 2 * n - 1, Bump(k, f, x));
    }
  }

  lemma {:induction false} IterateAdd(k: nat, f: Affine, a: nat, b: nat, x: nat)
    ensures Iterate(k, f, a + b, x) == Iterate(k, f, b, Iterate(k, f, a, x))
    decreases a
  {
    if a > 0 { IterateAdd(k, f, a - 1, b, Bump(k, f, x)); }
  }

  // ---------- advance ----------

  /** Jumps `delta` steps in as many rounds as `delta` has bits. */
  method AdvanceState(k: nat, state: nat, delta: nat, mult: nat, plus: nat) returns (r: nat)
    requires state < Pow2(k) && mult < Pow2(k) && plus < Pow2(k)
    ensures r == Iterate(k, Affine(mult, plus), delta, state)
  {
    var m := Pow2(k);
    var accMult: nat, accPlus: nat := 1 % m, 0;
    var curMult: nat, curPlus: nat, rest: nat := mult, plus, delta;
    ModSmall(state, m);
    CongMod(1, m);
    BumpCong(k, Affine(accMult, accPlus), Affine(1, 0), state, state);
    while rest > 0
      invariant curMult < m && curPlus < m
      invariant Iterate(k, Affine(curMult, curPlus), rest, Bump(k, Affine(accMult, accPlus), state))
             == Iterate(k, Affine(mult, plus), delta, state)
    {
      ghost var cur := Affine(curMult, curPlus);
      ghost var reached := Bump(k, Affine(accMult, accPlus), state);
      if rest % 2 == 1 {
        ghost var was := Affine(accMult, accPlus);
        accMult := accMult * curMult % m;
        accPlus := (accPlus * curMult % m + curPlus) % m;
        ComposeBumps(k, was, cur, state);
        assert Bump(k, Affine(accMult, accPlus), state) == Bump(k, cur, reached);
        IterateTwice(k, cur, rest / 2, Bump(k, cur, reached));
      } else {
        IterateTwice(k, cur, rest / 2, reached);
      }
      curPlus := (curMult + 1) % m * curPlus % m;
      curMult := curMult * curMult % m;
      assert Affine(curMult, curPlus) == Twice(k, cur);
      rest := rest / 2;
    }
    r := (accMult * state + accPlus) % m;
    assert accMult * state == state * accMult;
  }

  // ---------- Periods ----------

  /** `f` after `j` doublings. */
  function Power(k: nat, f: Affine, j: nat): (g: Affine) {
    if j == 0 then f else Twice(k, Power(k, f, j - 1))
  }

  lemma {:induction false} PowerIterates(k: nat, f: Affine, j: nat, n: nat, x: nat)
    ensures Iterate(k, Power(k, f, j), n, x) == Iterate(k, f, Pow2(j) * n, x)
  {
    if j > 0 {
      IterateTwice(k, Power(k, f, j - 1), n, x);
      PowerIterates(k, f, j - 1, 2 * n, x);
      MoveTwo(Pow2(j - 1), n);
    }
  }

  lemma MoveTwo(p: int, n: int)
    ensures p * (2 * n) == 2 * p * n
  {
  }

  lemma PowerBumps(k: nat, f: Affine, j: nat, x: nat)
    ensures Bump(k, Power(k, f, j), x) == Iterate(k, f, Pow2(j), x)
  {
    PowerIterates(k, f, j, 1, x);
    assert Iterate(k, Power(k, f, j), 1, x) == Iterate(k, Power(k, f, j), 0, Bump(k, Power(k, f, j), x));
  }

  lemma CongPow2(a: int, b: int, k: nat, j: nat)
    requires Cong(a, b, Pow2(k)) && j <= k
    ensures Cong(a, b, Pow2(j))
  {
    Pow2Add(k - j, j);
    CongDivisor(a, b, Pow2(j), Pow2(k - j));
  }

  /** Squaring modulo `2^k`, seen modulo a smaller power. */
  lemma TwiceCong(k: nat, f: Affine, j: nat)
    requires j <= k
    ensures Cong(Twice(k, f).mult, f.mult * f.mult, Pow2(j))
    ensures Cong(Twice(k, f).plus, (f.mult + 1) * f.plus, Pow2(j))
  {
    TwiceReduces(k, f);
    CongPow2(Twice(k, f).mult, f.mult * f.mult, k, j);
    CongPow2(Twice(k, f).plus, (f.mult + 1) * f.plus, k, j);
  }

  lemma OddSquare(a: int, m: int, p: nat)
    requires p > 0 && m == 1 + a * p && m % 2 == 1
    ensures Cong(m * m, 1, 2 * p)
  {
    var b := (m + 1) / 2;
    assert m * m == 1 + (m - 1) * (m + 1);
    assert (m - 1) * (m + 1) == a * p * (2 * b) == a * b * (2 * p);
    CongWitness(m * m, 1, 2 * p, a * b);
  }

  lemma EvenTimes(c: int, b: int, p: nat)
    requires p > 0
    ensures Cong(2 * b * (c * p), 0, 2 * p)
  {
    assert 2 * b * (c * p) == b * c * (2 * p);
    CongWitness(2 * b * (c * p), 0, 2 * p, b * c);
  }

  /** With an odd multiplier, `j` doublings fix the low `j` bits. */
  lemma {:induction false} OddPower(k: nat, f: Affine, j: nat)
    requires f.mult % 2 == 1 && j <= k
    ensures var g := Power(k, f, j);
            Cong(g.mult, 1, Pow2(j)) && Cong(g.plus, 0, Pow2(j)) && (k > 0 ==> g.mult % 2 == 1)
  {
    if j > 0 {
      OddPower(k, f, j - 1);
      OddTwice(k, Power(k, f, j - 1), j);
    }
  }

  /** Squaring fixes one more bit. */
  lemma OddTwice(k: nat, g: Affine, j: nat)
    requires 0 < j <= k && g.mult % 2 == 1 && Cong(g.mult, 1, Pow2(j - 1)) && Cong(g.plus, 0, Pow2(j - 1))
    ensures var t := Twice(k, g);
            Cong(t.mult, 1, Pow2(j)) && Cong(t.plus, 0, Pow2(j)) && t.mult % 2 == 1
  {
    hide Twice;
    var a := CongMultiple(g.mult, 1, Pow2(j - 1));
    var c := CongMultiple(g.plus, 0, Pow2(j - 1));
    OddSquare(a, g.mult, Pow2(j - 1));
    EvenTimes(c, (g.mult + 1) / 2, Pow2(j - 1));
    TwiceCong(k, g, j);
    OddMult(k, g);
  }

  lemma OddMult(k: nat, g: Affine)
    requires k > 0 && g.mult % 2 == 1
    ensures Twice(k, g).mult % 2 == 1
  {
    hide Twice;
    TwiceCong(k, g, 1);
    OddProduct(g.mult, g.mult);
    assert Pow2(1) == 2;
  }

  lemma OddProduct(a: int, b: int)
    requires a % 2 == 1 && b % 2 == 1
    ensures a * b % 2 == 1
  {
    var c, d := a / 2, b / 2;
    assert a * b == 2 * (2 * c * d + c + d) + 1;
  }

  /** `2^k` steps lead back to where they started, whenever the multiplier is odd. */
  lemma FullCircle(k: nat, f: Affine, x: nat)
    requires f.mult % 2 == 1 && x < Pow2(k)
    ensures Iterate(k, f, Pow2(k), x) == x
  {
    OddPower(k, f, k);
    PowerBumps(k, f, k, x);
    BumpCong(k, Power(k, f, k), Affine(1, 0), x, x);
    ModSmall(x, Pow2(k));
  }

  /** The distance `backstep` passes to `advance`: `-delta` as a `k`-bit word. */
  function Negate(k: nat, delta: nat): (r: nat)
    requires delta < Pow2(k)
    ensures r < Pow2(k) && (delta + r == 0 || delta + r == Pow2(k))
  {
    if delta == 0 then 0 else Pow2(k) - delta
  }

  /** Stepping back undoes stepping forward, from any state. */
  lemma BackstepUndoes(k: nat, f: Affine, delta: nat, x: nat)
    requires f.mult % 2 == 1 && x < Pow2(k) && delta < Pow2(k)
    ensures Iterate(k, f, Negate(k, delta), Iterate(k, f, delta, x)) == x
    ensures Iterate(k, f, delta, Iterate(k, f, Negate(k, delta), x)) == x
  {
    var back := Negate(k, delta);
    if delta > 0 {
      IterateAdd(k, f, delta, back, x);
      IterateAdd(k, f, back, delta, x);
      FullCircle(k, f, x);
    }
  }

  /** The state `backstep` lands on is the only one that `delta` steps take back. */
  lemma BackstepLands(k: nat, f: Affine, delta: nat, x: nat)
    requires f.mult % 2 == 1 && x < Pow2(k) && delta < Pow2(k)
    ensures var r := Iterate(k, f, Negate(k, delta), x);
            && Iterate(k, f, delta, r) == x
            && forall y: nat | y < Pow2(k) && Iterate(k, f, delta, y) == x :: y == r
  {
    hide Iterate;
    BackstepUndoes(k, f, delta, x);
    forall y: nat | y < Pow2(k) && Iterate(k, f, delta, y) == x ensures y == Iterate(k, f, Negate(k, delta), x) {
      BackstepUndoes(k, f, delta, y);
    }
  }

  /** With an even multiplier two states collapse, so no function of the state can step back. */
  lemma EvenCollapses(k: nat, f: Affine)
    requires k > 0 && f.mult % 2 == 0
    ensures Pow2(k - 1) < Pow2(k) && Bump(k, f, 0) == Bump(k, f, Pow2(k - 1))
  {
    var h := f.mult / 2;
    assert Pow2(k - 1) * f.mult == h * Pow2(k);
    ModAddMultiple(f.plus, h, Pow2(k));
    assert 0 * f.mult + f.plus == f.plus;
  }

  ghost predicate Undone(k: nat, f: Affine, delta: nat, x: nat)
    requires delta < Pow2(k)
  {
    Iterate(k, f, Negate(k, delta), Iterate(k, f, delta, x)) == x
  }

  lemma EvenLoses(k: nat, f: Affine) returns (x: nat)
    requires k > 0 && f.mult % 2 == 0
    ensures x < Pow2(k) && 1 < Pow2(k) && !Undone(k, f, 1, x)
  {
    EvenCollapses(k, f);
    var h := Pow2(k - 1);
    assert Iterate(k, f, 1, 0) == Iterate(k, f, 0, Bump(k, f, 0));
    assert Iterate(k, f, 1, h) == Iterate(k, f, 0, Bump(k, f, h));
    x := if Undone(k, f, 1, 0) then h else 0;
  }

  /** `backstep` inverts `advance` from every state and by every distance exactly if the
      multiplier is odd. */
  lemma BackstepUndoesIff(k: nat, f: Affine)
    requires k > 0
    ensures f.mult % 2 == 1 <==> forall delta: nat, x: nat | delta < Pow2(k) && x < Pow2(k) :: Undone(k, f, delta, x)
  {
    hide Iterate, Negate;
    if f.mult % 2 == 1 {
      forall delta: nat, x: nat | delta < Pow2(k) && x < Pow2(k) ensures Undone(k, f, delta, x) {
        BackstepUndoes(k, f, delta, x);
      }
    } else {
      var x := EvenLoses(k, f);
    }
  }

  // ---------- distance ----------

  lemma {:induction false} BitMod(x: nat, n: nat)
    ensures x % Pow2(n + 1) == x % Pow2(n) + if Bit(x, n) then Pow2(n) else 0
  {
    if n > 0 {
      BitMod(x / 2, n - 1);
      ModTwo(x, Pow2(n));
      ModTwo(x, Pow2(n - 1));
    }
  }

  lemma AddHalf(x: nat, p: nat)
    requires p > 0
    ensures (x + p) % (2 * p) == if x % (2 * p) < p then x % (2 * p) + p else x % (2 * p) - p
  {
    var q, low := x / (2 * p), x % (2 * p);
    assert x == q * (2 * p) + low;
    if low < p {
      DivModUnique(x + p, 2 * p, q, low + p);
    } else {
      assert (q + 1) * (2 * p) == q * (2 * p) + 2 * p;
      DivModUnique(x + p, 2 * p, q + 1, low - p);
    }
  }

  /** Adding `2^b` modulo `2^(b+1)` keeps the lower bits and flips bit `b`. */
  lemma FlipMeaning(x: nat, y: nat, b: nat)
    requires Cong(y, x + Pow2(b), Pow2(b + 1))
    ensures Cong(y, x, Pow2(b)) && Bit(y, b) != Bit(x, b)
  {
    CongPow2(y, x + Pow2(b), b + 1, b);
    CongWitness(x + Pow2(b), x, Pow2(b), 1);
    BitMod(x, b);
    BitMod(y, b);
    AddHalf(x, Pow2(b));
  }

  /** The generators the library offers: full-period LCGs, or MCGs (no increment). */
  ghost predicate Generator(k: nat, f: Affine, isMcg: bool) {
    && f.mult < Pow2(k) && f.plus < Pow2(k)
    && (if isMcg then f.mult % 8 == 5 && f.plus == 0 else f.mult % 4 == 1 && f.plus % 2 == 1)
  }

  function Offset(isMcg: bool): nat { if isMcg then 2 else 0 }

  lemma LcgProduct(a: int, b: int, c: int, p: int)
    ensures (2 * (2 * b + 1)) * (p + c * (2 * p)) == 2 * p + (2 * b * c + b + c) * (4 * p)
    ensures a * (2 * p) * (2 * (2 * b + 1)) == a * (2 * b + 1) * (4 * p)
  {
    assert p + c * (2 * p) == p * (1 + 2 * c);
    assert (2 * b + 1) * (1 + 2 * c) == 1 + 2 * (2 * b * c + b + c);
    assert 2 * (2 * b + 1) * (p * (1 + 2 * c)) == 2 * p * ((2 * b + 1) * (1 + 2 * c));
  }

  lemma LcgDoubling(m: int, q: int, p: nat)
    requires p > 0 && m % 4 == 1 && Cong(m, 1, 2 * p) && Cong(q, p, 2 * p)
    ensures Cong(m * m, 1, 4 * p) && Cong((m + 1) * q, 2 * p, 4 * p) && m * m % 4 == 1
  {
    var a := CongMultiple(m, 1, 2 * p);
    var c := CongMultiple(q, p, 2 * p);
    var b := m / 4;
    hide Cong;
    LcgProduct(a, b, c, p);
    DifferenceOfSquares(m);
    CongWitness(m * m, 1, 4 * p, a * (2 * b + 1));
    CongWitness((m + 1) * q, 2 * p, 4 * p, 2 * b * c + b + c);
    SquareOfOne(b);
  }

  lemma DifferenceOfSquares(m: int)
    ensures m * m == 1 + (m - 1) * (m + 1)
  {
  }

  lemma SquareOfOne(b: int)
    ensures (4 * b + 1) * (4 * b + 1) % 4 == 1
  {
    assert (4 * b + 1) * (4 * b + 1) == 4 * (4 * (b * b) + 2 * b) + 1;
  }

  lemma FourDivides(k: nat, a: int, b: int)
    requires k >= 2 && Cong(a, b, Pow2(k))
    ensures a % 4 == b % 4
  {
    assert Pow2(2) == 4;
    CongPow2(a, b, k, 2);
  }

  /** After `i` doublings an LCG adds `2^i`, as far as the low `i + 1` bits can tell. */
  lemma {:induction false} LcgPower(k: nat, f: Affine, i: nat)
    requires Generator(k, f, false) && i < k
    ensures var g := Power(k, f, i);
            && Cong(g.mult, 1, Pow2(i + 1)) && Cong(g.plus, Pow2(i), Pow2(i + 1))
            && (k >= 2 ==> g.mult % 4 == 1)
  {
    if i > 0 {
      LcgPower(k, f, i - 1);
      var g := Power(k, f, i - 1);
      LcgDoubling(g.mult, g.plus, Pow2(i - 1));
      TwiceCong(k, g, i + 1);
      TwiceCong(k, g, k);
      FourDivides(k, Twice(k, g).mult, g.mult * g.mult);
      assert Pow2(i + 1) == 4 * Pow2(i - 1);
    }
  }

  lemma McgSquare(c: int, p: int)
    ensures (1 + 4 * (p * (1 + 2 * c))) * (1 + 4 * (p * (1 + 2 * c)))
         == 1 + 8 * p + (c + p * (1 + 2 * c) * (1 + 2 * c)) * (16 * p)
  {
    var u := 1 + 2 * c;
    assert (1 + 4 * (p * u)) * (1 + 4 * (p * u)) == 1 + 8 * (p * u) + 16 * ((p * u) * (p * u));
    assert p * u == p + 2 * (c * p);
    assert (p * u) * (p * u) == p * u * u * p;
    assert (c + p * u * u) * (16 * p) == 16 * (c * p) + 16 * (p * u * u * p);
  }

  lemma McgDoubling(m: int, p: nat)
    requires p > 0 && Cong(m, 1 + 4 * p, 8 * p)
    ensures Cong(m * m, 1 + 8 * p, 16 * p)
  {
    var c := CongMultiple(m, 1 + 4 * p, 8 * p);
    assert m == 1 + 4 * (p * (1 + 2 * c));
    McgSquare(c, p);
    CongWitness(m * m, 1 + 8 * p, 16 * p, c + p * (1 + 2 * c) * (1 + 2 * c));
  }

  /** After `i` doublings an MCG multiplies by `1 + 2^(i+2)`, modulo `2^(i+3)`. */
  lemma {:induction false} McgPower(k: nat, f: Affine, i: nat)
    requires Generator(k, f, true) && i + 2 < k
    ensures var g := Power(k, f, i);
            Cong(g.mult, 1 + 4 * Pow2(i), 8 * Pow2(i)) && g.plus == 0
  {
    if i > 0 {
      McgPower(k, f, i - 1);
      var g := Power(k, f, i - 1);
      McgDoubling(g.mult, Pow2(i - 1));
      TwiceCong(k, g, i + 3);
      assert Pow2(i + 3) == 2 * Pow2(i + 2) == 4 * Pow2(i + 1) == 8 * Pow2(i) == 16 * Pow2(i - 1);
      ModSmall(0, Pow2(k));
    }
  }

  /** States the generator visits: an MCG keeps its two low bits at 3. */
  ghost predicate StateOf(k: nat, isMcg: bool, x: nat) {
    x < Pow2(k) && (isMcg ==> x % 4 == 3)
  }

  lemma OddTimes(x: nat, m: int, p: nat)
    requires p > 0 && x % 2 == 1 && Cong(m, 1 + p, 2 * p)
    ensures Cong(x * m, x + p, 2 * p)
  {
    var y := x / 2;
    CongMul(x, x, m, 1 + p, 2 * p);
    assert x * (1 + p) == x + p + y * (2 * p);
    CongWitness(x * (1 + p), x + p, 2 * p, y);
  }

  /** One step of the `i`-th doubling flips bit `i` (of an MCG: `i + 2`) and fixes all lower bits. */
  lemma Flips(k: nat, f: Affine, isMcg: bool, i: nat, x: nat)
    requires Generator(k, f, isMcg) && i + Offset(isMcg) < k && (isMcg ==> x % 2 == 1)
    ensures var b := i + Offset(isMcg);
            Cong(Bump(k, Power(k, f, i), x), x + Pow2(b), Pow2(b + 1))
  {
    var g, b := Power(k, f, i), i + Offset(isMcg);
    CongMod(x * g.mult + g.plus, Pow2(k));
    CongPow2(Bump(k, g, x), x * g.mult + g.plus, k, b + 1);
    if isMcg {
      McgPower(k, f, i);
      assert Pow2(b) == 2 * Pow2(i + 1) == 4 * Pow2(i);
      OddTimes(x, g.mult, Pow2(b));
    } else {
      LcgPower(k, f, i);
      CongMul(x, x, g.mult, 1, Pow2(b + 1));
      CongAdd(x * g.mult, x, g.plus, Pow2(b), Pow2(b + 1));
    }
  }

  /** Bits below `n` agree. */
  lemma AgreeMore(x: nat, y: nat, n: nat)
    requires Cong(x, y, Pow2(n)) && Bit(x, n) == Bit(y, n)
    ensures Cong(x, y, Pow2(n + 1))
  {
    BitMod(x, n);
    BitMod(y, n);
  }

  lemma Parity(x: nat, y: nat, n: nat)
    requires n > 0 && Cong(x, y, Pow2(n))
    ensures x % 2 == y % 2
  {
    assert Pow2(1) == 2;
    CongPow2(x, y, n, 1);
  }

  /** What one round of the loop of `distance` achieves. */
  lemma DistanceRound(k: nat, f: Affine, isMcg: bool, i: nat, cur: nat, t: nat)
    requires Generator(k, f, isMcg) && i + Offset(isMcg) < k && (isMcg ==> t % 2 == 1)
    requires Cong(cur, t, Pow2(i + Offset(isMcg)))
    ensures var b := i + Offset(isMcg);
            Cong(if Bit(cur, b) != Bit(t, b) then Bump(k, Power(k, f, i), cur) else cur, t, Pow2(b + 1))
  {
    var b := i + Offset(isMcg);
    if isMcg { Parity(cur, t, b); }
    if Bit(cur, b) != Bit(t, b) {
      var next := Bump(k, Power(k, f, i), cur);
      Flips(k, f, isMcg, i, cur);
      FlipMeaning(cur, next, b);
      AgreeMore(next, t, b);
    } else {
      AgreeMore(cur, t, b);
    }
  }

  /** Where the loop of `distance` is after `i` rounds: `steps` steps lead to `cur`, which agrees
      with the target on all lower bits. */
  ghost predicate Midway(k: nat, f: Affine, isMcg: bool, state: nat, t: nat, i: nat, steps: nat,
                         cur: nat, g: Affine, theBit: nat, distance: nat) {
    var b := i + Offset(isMcg);
    && b <= k && cur < Pow2(k) && t < Pow2(k) && g == Power(k, f, i)
    && Cong(cur, t, Pow2(b)) && (b < k ==> theBit == Pow2(b))
    && steps < Pow2(i) && distance == Scale(isMcg) * steps && cur == Iterate(k, f, steps, state)
  }

  lemma MidwayNarrows(k: nat, f: Affine, isMcg: bool, state: nat, t: nat, i: nat, steps: nat,
                      cur: nat, g: Affine, theBit: nat, distance: nat)
    requires Midway(k, f, isMcg, state, t, i, steps, cur, g, theBit, distance) && cur != t
    ensures i + Offset(isMcg) < k && theBit == Pow2(i + Offset(isMcg))
  {
    hide Power, Iterate, Pow2;
    Separates(cur, t, k);
  }

  /** One round keeps `Midway`, and leaves the bit it looked at equal to the target's. */
  lemma MidwayRound(k: nat, f: Affine, isMcg: bool, state: nat, t: nat, i: nat, steps: nat,
                    cur: nat, g: Affine, theBit: nat, distance: nat, cur': nat, distance': nat)
      returns (steps': nat)
    requires Generator(k, f, isMcg) && (isMcg ==> t % 2 == 1) && i + Offset(isMcg) < k
    requires Midway(k, f, isMcg, state, t, i, steps, cur, g, theBit, distance)
    requires if And(cur, theBit) != And(t, theBit)
             then cur' == Bump(k, g, cur) && distance' == Or(distance, theBit)
             else cur' == cur && distance' == distance
    ensures And(cur', theBit) == And(t, theBit)
    ensures Midway(k, f, isMcg, state, t, i + 1, steps', cur', Twice(k, g), theBit * 2 % Pow2(k), distance')
  {
    hide Bit, And, Or, Pow2, Bump, Generator, Twice, Iterate, Cong;
    var b := i + Offset(isMcg);
    BitTests(cur, t, b);
    DistanceRound(k, f, isMcg, i, cur, t);
    if And(cur, theBit) != And(t, theBit) {
      SumOfBits(k, f, isMcg, i, steps, state);
      steps' := steps + Pow2(i);
    } else {
      Pow2Monotone(i, i + 1);
      steps' := steps;
    }
    SameBit(cur', t, b);
    BitTests(cur', t, b);
    DoubledBit(k, b);
  }

  /** How many steps lead from `state` to `newstate`, as far as the bits of `mask` can tell. */
  method Distance(k: nat, state: nat, newstate: nat, mult: nat, plus: nat, isMcg: bool, mask: nat) returns (d: nat)
    requires Generator(k, Affine(mult, plus), isMcg) && StateOf(k, isMcg, state) && StateOf(k, isMcg, newstate)
    ensures k >= Offset(isMcg) && d < Pow2(k - Offset(isMcg))
    ensures And(Iterate(k, Affine(mult, plus), d, state), mask) == And(newstate, mask)
  {
    hide And, Or, StateOf, Generator, Midway, Pow2, Iterate, Power;
    ghost var f := Affine(mult, plus);
    var m := Pow2(k);
    McgIsWide(k, f, isMcg);
    MidwayStarts(k, f, isMcg, state, newstate);
    var cur: nat, curMult: nat, curPlus: nat := state, mult, plus;
    var theBit: nat := if isMcg then 4 % m else 1 % m;
    var distance: nat := 0;
    ghost var i, steps: nat := 0, 0;
    while And(cur, mask) != And(newstate, mask)
      invariant Midway(k, f, isMcg, state, newstate, i, steps, cur, Affine(curMult, curPlus), theBit, distance)
      decreases k - i
    {
      ghost var g, oldCur, oldDistance := Affine(curMult, curPlus), cur, distance;
      MidwayNarrows(k, f, isMcg, state, newstate, i, steps, cur, g, theBit, distance);
      if And(cur, theBit) != And(newstate, theBit) {
        cur := (cur * curMult + curPlus) % m;
        distance := Or(distance, theBit);
      }
      steps := MidwayRound(k, f, isMcg, state, newstate, i, steps, oldCur, g, theBit, oldDistance, cur, distance);
      assert And(cur, theBit) == And(newstate, theBit);
      theBit := theBit * 2 % m;
      curPlus := (curMult + 1) % m * curPlus % m;
      curMult := curMult * curMult % m;
      i := i + 1;
    }
    d := if isMcg then distance / 4 else distance;
    MidwayEnds(k, f, isMcg, state, newstate, i, steps, cur, Affine(curMult, curPlus), theBit, distance);
  }

  lemma MidwayStarts(k: nat, f: Affine, isMcg: bool, state: nat, t: nat)
    requires Generator(k, f, isMcg) && StateOf(k, isMcg, state) && StateOf(k, isMcg, t)
    ensures isMcg ==> t % 2 == 1
    ensures Midway(k, f, isMcg, state, t, 0, 0, state, f, if isMcg then 4 % Pow2(k) else 1 % Pow2(k), 0)
  {
    McgIsWide(k, f, isMcg);
    FirstBit(k, isMcg, state, t);
  }

  lemma MidwayEnds(k: nat, f: Affine, isMcg: bool, state: nat, t: nat, i: nat, steps: nat,
                   cur: nat, g: Affine, theBit: nat, distance: nat)
    requires Midway(k, f, isMcg, state, t, i, steps, cur, g, theBit, distance)
    ensures k >= Offset(isMcg)
    ensures var d := if isMcg then distance / 4 else distance;
            d < Pow2(k - Offset(isMcg)) && cur == Iterate(k, f, d, state)
  {
    Pow2Monotone(i, k - Offset(isMcg));
  }

  function Scale(isMcg: bool): nat { if isMcg then 4 else 1 }

  lemma Separates(x: nat, y: nat, k: nat)
    requires x < Pow2(k) && y < Pow2(k) && x != y
    ensures !Cong(x, y, Pow2(k))
  {
    ModSmall(x, Pow2(k));
    ModSmall(y, Pow2(k));
  }

  lemma BitTests(x: nat, y: nat, b: nat)
    ensures And(x, Pow2(b)) != And(y, Pow2(b)) <==> Bit(x, b) != Bit(y, b)
  {
    AndPow2(x, b);
    AndPow2(y, b);
  }

  lemma McgIsWide(k: nat, f: Affine, isMcg: bool)
    requires Generator(k, f, isMcg)
    ensures isMcg ==> k >= 3
    ensures k >= 1
  {
    if isMcg {
      if k <= 2 {
        Pow2Monotone(k, 2);
        assert Pow2(2) == 4;
        ModSmall(f.mult, 8);
      }
    }
  }

  lemma FirstBit(k: nat, isMcg: bool, s: nat, t: nat)
    requires (isMcg ==> k >= 3) && k >= 1 && StateOf(k, isMcg, s) && StateOf(k, isMcg, t)
    ensures s < Pow2(k) && t < Pow2(k) && (isMcg ==> t % 2 == 1) && Cong(s, t, Pow2(Offset(isMcg)))
    ensures (if isMcg then 4 % Pow2(k) else 1 % Pow2(k)) == Pow2(Offset(isMcg))
  {
    assert Pow2(2) == 4;
    if isMcg {
      Pow2Monotone(3, k);
      assert Pow2(3) == 8;
      ModSmall(4, Pow2(k));
    } else {
      Pow2Monotone(1, k);
      ModSmall(1, Pow2(k));
    }
  }

  lemma SameBit(x: nat, y: nat, b: nat)
    requires Cong(x, y, Pow2(b + 1))
    ensures Bit(x, b) == Bit(y, b)
  {
    BitMod(x, b);
    BitMod(y, b);
    CongPow2(x, y, b + 1, b);
  }

  lemma DoubledBit(k: nat, b: nat)
    requires b < k
    ensures b + 1 < k ==> Pow2(b) * 2 % Pow2(k) == Pow2(b + 1)
  {
    if b + 1 < k {
      Pow2Monotone(b + 1, k);
      ModSmall(Pow2(b + 1), Pow2(k));
    }
  }

  /** Setting the next bit of the distance adds `2^i` steps. */
  lemma SumOfBits(k: nat, f: Affine, isMcg: bool, i: nat, steps: nat, s: nat)
    requires steps < Pow2(i)
    ensures Or(Scale(isMcg) * steps, Pow2(i + Offset(isMcg))) == Scale(isMcg) * (steps + Pow2(i))
    ensures steps + Pow2(i) < Pow2(i + 1)
    ensures Iterate(k, f, steps + Pow2(i), s) == Bump(k, Power(k, f, i), Iterate(k, f, steps, s))
  {
    var b := i + Offset(isMcg);
    assert Pow2(b) == Scale(isMcg) * Pow2(i) by {
      if isMcg { assert Pow2(i + 2) == 2 * Pow2(i + 1) == 4 * Pow2(i); }
    }
    ModAddMultiple(0, 1, Pow2(b));
    OrIsSum(Pow2(b), Scale(isMcg) * steps, b);
    PowerBumps(k, f, i, Iterate(k, f, steps, s));
    IterateAdd(k, f, steps, Pow2(i), s);
  }

  // ---------- One period visits every state once ----------

  /** `q` steps of the `i`-th doubling move bit `b` by `q`, as far as the bits up to `b` can tell. */
  lemma {:induction false} FlipsAll(k: nat, f: Affine, isMcg: bool, i: nat, q: nat, y: nat)
    requires Generator(k, f, isMcg) && i + Offset(isMcg) < k && (isMcg ==> y % 2 == 1)
    ensures var b := i + Offset(isMcg);
            Cong(Iterate(k, Power(k, f, i), q, y), y + q * Pow2(b), Pow2(b + 1))
    decreases q
  {
    hide Generator, Power, Pow2;
    if q > 0 {
      var b := i + Offset(isMcg);
      var next := Bump(k, Power(k, f, i), y);
      Flips(k, f, isMcg, i, y);
      StillOdd(isMcg, next, y, b);
      FlipsAll(k, f, isMcg, i, q - 1, next);
      CongAdd(next, y + Pow2(b), (q - 1) * Pow2(b), (q - 1) * Pow2(b), Pow2(b + 1));
      assert (q - 1) * Pow2(b) + Pow2(b) == q * Pow2(b);
    }
  }

  lemma StillOdd(isMcg: bool, next: nat, y: nat, b: nat)
    requires Cong(next, y + Pow2(b), Pow2(b + 1)) && (isMcg ==> y % 2 == 1 && b >= 2)
    ensures isMcg ==> next % 2 == 1
  {
    if isMcg {
      Parity(next, y + Pow2(b), b + 1);
      assert Pow2(b) == 2 * Pow2(b - 1);
    }
  }

  lemma OddMultiple(y: nat, q: nat, p: nat)
    requires p > 0 && Cong(y, y + q * p, 2 * p)
    ensures q % 2 == 0
  {
    var c := CongMultiple(y, y + q * p, 2 * p);
    assert q * p == (-2 * c) * p;
    if q != -2 * c { MulAtLeast(if q > -2 * c then q + 2 * c else -2 * c - q, p); assert false; }
  }

  lemma EvenReturn(x: nat, y: nat, q: nat, b: nat)
    requires Cong(x, y, Pow2(b + 1)) && Cong(x, y + q * Pow2(b), Pow2(b + 1))
    ensures q % 2 == 0
  {
    OddMultiple(y, q, Pow2(b));
  }

  /** A walk that returns to its start on the low bits has a length divisible by the matching power. */
  lemma {:induction false} ReturnsDivide(k: nat, f: Affine, isMcg: bool, i: nat, n: nat, y: nat) returns (q: nat)
    requires Generator(k, f, isMcg) && i + Offset(isMcg) <= k && (isMcg ==> y % 2 == 1)
    requires Cong(Iterate(k, f, n, y), y, Pow2(i + Offset(isMcg)))
    ensures n == Pow2(i) * q
    decreases i
  {
    hide Generator, Power, Iterate, Cong;
    if i == 0 {
      q := n;
    } else {
      var b := i - 1 + Offset(isMcg);
      CongPow2(Iterate(k, f, n, y), y, b + 1, b);
      var r := ReturnsDivide(k, f, isMcg, i - 1, n, y);
      PowerIterates(k, f, i - 1, r, y);
      FlipsAll(k, f, isMcg, i - 1, r, y);
      EvenReturn(Iterate(k, f, n, y), y, r, b);
      q := r / 2;
      MoveTwo(Pow2(i - 1), q);
    }
  }

  lemma NotMultiple(q: nat, p: nat)
    ensures !(0 < p * q < p)
  {
    if q > 0 { MulAtLeast(q, p); }
  }

  /** No state recurs before the period of `2^period_pow2()` steps is over. */
  lemma NoEarlyReturn(k: nat, f: Affine, isMcg: bool, n: nat, y: nat)
    requires Generator(k, f, isMcg) && StateOf(k, isMcg, y) && k >= Offset(isMcg)
    requires 0 < n < Pow2(k - Offset(isMcg))
    ensures Iterate(k, f, n, y) != y
  {
    hide Iterate, Generator, Pow2;
    if Iterate(k, f, n, y) == y {
      var q := ReturnsDivide(k, f, isMcg, k - Offset(isMcg), n, y);
      NotMultiple(q, Pow2(k - Offset(isMcg)));
    }
  }

  lemma StaysState(k: nat, f: Affine, isMcg: bool, y: nat)
    requires Generator(k, f, isMcg) && StateOf(k, isMcg, y)
    ensures StateOf(k, isMcg, Bump(k, f, y))
  {
    hide Pow2;
    if isMcg {
      McgIsWide(k, f, isMcg);
      CongMod(y * f.mult, Pow2(k));
      FourDivides(k, Bump(k, f, y), y * f.mult);
      ThreeStays(y, f.mult);
    }
  }

  lemma ThreeStays(y: nat, m: nat)
    requires y % 4 == 3 && m % 8 == 5
    ensures y * m % 4 == 3
  {
    var a, b := y / 4, m / 8;
    assert y * m == 4 * (a * m + 6 * b + 3) + 3 by {
      assert (4 * a + 3) * m == 4 * (a * m) + 3 * m;
    }
  }

  lemma {:induction false} WalkStays(k: nat, f: Affine, isMcg: bool, n: nat, y: nat)
    requires Generator(k, f, isMcg) && StateOf(k, isMcg, y)
    ensures StateOf(k, isMcg, Iterate(k, f, n, y))
    decreases n
  {
    hide Generator, StateOf;
    if n > 0 {
      StaysState(k, f, isMcg, y);
      WalkStays(k, f, isMcg, n - 1, Bump(k, f, y));
    }
  }

  /** Within one period, walks of different lengths end in different states. */
  lemma StepsUnique(k: nat, f: Affine, isMcg: bool, a: nat, b: nat, y: nat)
    requires Generator(k, f, isMcg) && StateOf(k, isMcg, y) && k >= Offset(isMcg)
    requires a < Pow2(k - Offset(isMcg)) && b < Pow2(k - Offset(isMcg))
    requires Iterate(k, f, a, y) == Iterate(k, f, b, y)
    ensures a == b
  {
    hide Generator, StateOf, Iterate;
    var lo, hi := if a < b then a else b, if a < b then b else a;
    if lo < hi {
      WalkStays(k, f, isMcg, lo, y);
      IterateAdd(k, f, lo, hi - lo, y);
      NoEarlyReturn(k, f, isMcg, hi - lo, Iterate(k, f, lo, y));
    }
  }

  /** Every state is reached from every other within one period. */
  lemma {:induction false} Reaches(k: nat, f: Affine, isMcg: bool, s: nat, t: nat, i: nat) returns (n: nat)
    requires Generator(k, f, isMcg) && StateOf(k, isMcg, s) && StateOf(k, isMcg, t) && i + Offset(isMcg) <= k
    ensures n < Pow2(i) && Cong(Iterate(k, f, n, s), t, Pow2(i + Offset(isMcg)))
    ensures i + Offset(isMcg) == k ==> Iterate(k, f, n, s) == t
    decreases i
  {
    hide Generator, Power, Bit, Or, Cong, StateOf;
    McgIsWide(k, f, isMcg);
    FirstBit(k, isMcg, s, t);
    if i == 0 {
      n := 0;
    } else {
      var m := Reaches(k, f, isMcg, s, t, i - 1);
      DistanceRound(k, f, isMcg, i - 1, Iterate(k, f, m, s), t);
      SumOfBits(k, f, isMcg, i - 1, m, s);
      n := if Bit(Iterate(k, f, m, s), i - 1 + Offset(isMcg)) != Bit(t, i - 1 + Offset(isMcg)) then m + Pow2(i - 1) else m;
    }
    if i + Offset(isMcg) == k && Iterate(k, f, n, s) != t {
      Separates(Iterate(k, f, n, s), t, k);
    }
  }

  lemma RoundTheClock(x: nat, y: nat, k: nat)
    requires k > 0 && x < Pow2(k) && y < Pow2(k) && Cong(x, y + 2 * Pow2(k - 1), Pow2(k))
    ensures x == y
  {
    CongWitness(y + 2 * Pow2(k - 1), y, Pow2(k), 1);
    ModSmall(x, Pow2(k));
    ModSmall(y, Pow2(k));
  }

  lemma StateFacts(k: nat, isMcg: bool, y: nat)
    requires StateOf(k, isMcg, y)
    ensures y < Pow2(k) && (isMcg ==> y % 2 == 1)
  {
    hide Pow2;
  }

  /** After `2^period_pow2()` steps the generator is back where it was. */
  lemma PeriodCloses(k: nat, f: Affine, isMcg: bool, y: nat)
    requires Generator(k, f, isMcg) && StateOf(k, isMcg, y)
    ensures k >= Offset(isMcg) && Iterate(k, f, Pow2(k - Offset(isMcg)), y) == y
  {
    hide Generator, StateOf, Iterate, Power, Cong, Pow2;
    McgIsWide(k, f, isMcg);
    var i := k - Offset(isMcg) - 1;
    Pow2Next(i);
    StateFacts(k, isMcg, y);
    FlipsAll(k, f, isMcg, i, 2, y);
    PowerIterates(k, f, i, 2, y);
    WalkStays(k, f, isMcg, Pow2(i + 1), y);
    StateFacts(k, isMcg, Iterate(k, f, Pow2(i + 1), y));
    RoundTheClock(Iterate(k, f, Pow2(i + 1), y), y, k);
  }

  /** One period visits every state, and visits it once. */
  lemma VisitsOnce(k: nat, f: Affine, isMcg: bool, s: nat, t: nat) returns (n: nat)
    requires Generator(k, f, isMcg) && StateOf(k, isMcg, s) && StateOf(k, isMcg, t)
    ensures k >= Offset(isMcg) && n < Pow2(k - Offset(isMcg)) && Iterate(k, f, n, s) == t
    ensures forall m: nat | m < Pow2(k - Offset(isMcg)) && Iterate(k, f, m, s) == t :: m == n
  {
    McgIsWide(k, f, isMcg);
    hide Generator, StateOf, Iterate, Pow2;
    n := Reaches(k, f, isMcg, s, t, k - Offset(isMcg));
    forall m: nat | m < Pow2(k - Offset(isMcg)) && Iterate(k, f, m, s) == t ensures m == n {
      StepsUnique(k, f, isMcg, m, n, s);
    }
  }

  // ---------- The engine ----------

  /** The default multipliers and increments of pcg_random.hpp, by word width. */

  /** At every width the library offers, its constants make a full-period generator. */
  lemma DefaultsGenerate()
    ensures Generator(8, Affine(141, 77), false) && Generator(8, Affine(141, 0), true)
    ensures Generator(16, Affine(12829, 47989), false) && Generator(16, Affine(12829, 0), true)
    ensures Generator(32, Affine(747796405, 2891336453), false) && Generator(32, Affine(747796405, 0), true)
    ensures Generator(64, Affine(6364136223846793005, 1442695040888963407), false)
    ensures Generator(64, Affine(6364136223846793005, 0), true)
    ensures var m := 2549297995355413924 * 0x1_0000_0000_0000_0000 + 4865540595714422341;
            var inc := 6364136223846793005 * 0x1_0000_0000_0000_0000 + 1442695040888963407;
            Generator(128, Affine(m, inc), false) && Generator(128, Affine(m, 0), true)
  {
    MachineWidths();
    hide Pow2;
  }
}
