/** Rows of 32-bit words and shifts across their borders. */
module Words32 {
  import opened Arith
  import Bits

  const W := 0x1_0000_0000

  ghost predicate Words(s: seq<nat>) {
    forall i | 0 <= i < |s| :: s[i] < W
  }

  ghost function Value(s: seq<nat>): nat {
    if |s| == 0 then 0 else s[0] + W * Value(s[1..])
  }

  /** The weight of word `n`. */
  ghost function Weight(n: nat): (p: nat)
    ensures p > 0
  {
    if n == 0 then 1 else W * Weight(n - 1)
  }

  lemma {:induction false} WeightIsPow2(n: nat)
    ensures Weight(n) == Pow2(32 * n)
  {
    if n > 0 {
      WeightIsPow2(n - 1);
      MachineWidths();
      hide Pow2;
      Pow2Add(32, 32 * (n - 1));
    }
  }

  lemma WeightAdd(a: nat, b: nat)
    ensures Weight(a + b) == Weight(a) * Weight(b)
  {
    hide Weight, Pow2;
    WeightIsPow2(a);
    WeightIsPow2(b);
    WeightIsPow2(a + b);
    Pow2Add(32 * a, 32 * b);
  }

  lemma {:induction false} ValueFits(s: seq<nat>)
    requires Words(s)
    ensures Value(s) < Weight(|s|)
  {
    if |s| > 0 { ValueFits(s[1..]); }
  }

  lemma {:induction false} ValueSplit(s: seq<nat>, n: nat)
    requires n <= |s|
    ensures Value(s) == Value(s[..n]) + Weight(n) * Value(s[n..])
  {
    if n == 0 {
      assert s[0..] == s;
    } else {
      ValueSplit(s[1..], n - 1);
      assert s[1..][..n - 1] == s[..n][1..] && s[1..][n - 1..] == s[n..];
      assert W * (Weight(n - 1) * Value(s[n..])) == W * Weight(n - 1) * Value(s[n..]);
    }
  }

  lemma ValueTake(s: seq<nat>, n: nat)
    requires n < |s|
    ensures Value(s[..n + 1]) == Value(s[..n]) + Weight(n) * s[n]
  {
    hide Weight;
    var t := s[..n + 1];
    ValueSplit(t, n);
    assert t[..n] == s[..n] && t[n..] == [s[n]];
    assert Value([s[n]]) == s[n] + W * Value([]);
  }

  // ---------- One word ----------

  function Shl(x: nat, s: nat): (r: nat)
    ensures r < W
  {
    x * Pow2(s) % W
  }

  function Shr(x: nat, s: nat): (r: nat)
    ensures r <= x
  {
    DivAtMost(x, Pow2(s));
    x / Pow2(s)
  }

  lemma Crossing(s: nat)
    requires s <= 32
    ensures Pow2(s) * Pow2(32 - s) == W
  {
    MachineWidths();
    hide Pow2;
    Pow2Add(s, 32 - s);
  }

  /** What leaves a word on a left shift is what a right shift by the rest keeps. */
  lemma Splits(x: nat, s: nat)
    requires x < W && s <= 32
    ensures x * Pow2(s) == Shl(x, s) + W * Shr(x, 32 - s)
    ensures Shl(x, s) % Pow2(s) == 0 && Shr(x, 32 - s) < Pow2(s)
    ensures Shl(x, s) == x % Pow2(32 - s) * Pow2(s)
  {
    hide Pow2;
    Crossing(s);
    SplitProduct(x, Pow2(s), Pow2(32 - s), W);
  }

  /** The two parts of a word that straddles have no bit in common. */
  lemma Joins(x: nat, s: nat, carry: nat)
    requires x < W && s <= 32 && carry < Pow2(s)
    ensures Bits.Or(Shl(x, s), carry) == Shl(x, s) + carry < W
    ensures Bits.Or(carry, Shl(x, s)) == Shl(x, s) + carry
  {
    hide Pow2, Bits.Or, Shl;
    Splits(x, s);
    Bits.OrIsSum(Shl(x, s), carry, s);
    Crossing(s);
    Below(x % Pow2(32 - s), Pow2(32 - s), Pow2(s), carry, W);
  }

  lemma Below(l: nat, q: nat, p: nat, c: nat, w: nat)
    requires l < q && c < p && q * p == w
    ensures l * p + c < w
  {
    MulMonotone(l + 1, q, p);
  }

  // ---------- Left ----------

  lemma LeftColumn(w: nat, x: nat, p: nat, c: nat, r: nat, c': nat, low: nat, wi: nat, wd: nat)
    requires x * p + c == r + W * c' && w == wi * wd
    ensures (low + wi * x) * (wd * p) + w * c == low * (wd * p) + w * r + W * w * c'
  {
    assert wi * x * (wd * p) == w * (x * p);
    assert w * (x * p) + w * c == w * (r + W * c');
    assert w * (W * c') == W * w * c';
  }

  lemma LeftDone(v: nat, r: nat, low: nat, high: nat, wl: nat, wd: nat, p: nat, c: nat)
    requires v == low + wl * high && r + wl * wd * c == low * (wd * p) && r < wl * wd
    ensures r == v * (wd * p) % (wl * wd)
  {
    var m := wl * wd;
    assert wl * high * (wd * p) == m * (high * p);
    assert v * (wd * p) == (high * p + c) * m + r;
    DivModUnique(v * (wd * p), m, high * p + c, r);
  }

  /** Word by word from the bottom, carrying over what is shifted out. */
  method ShiftLeft(v: seq<nat>, shift: nat) returns (r: seq<nat>)
    requires Words(v) && shift < 32 * |v|
    ensures Words(r) && |r| == |v| && Value(r) == Value(v) * Pow2(shift) % Weight(|v|)
  {
    hide Value, Weight, Pow2, Shl, Shr, Bits.Or;
    var n := |v|;
    r := seq(n, i => 0);
    var div, mod := shift / 32, shift % 32;
    ghost var wd, p := Weight(div), Pow2(mod);
    WeightIsPow2(div);
    Pow2Add(32 * div, mod);
    LowWords(v, div);
    ghost var carry: nat := 0;
    var inp := 0;
    if mod != 0 {
      var carryover: nat := 0;
      PositivePow2(mod);
      while inp + div < n
        invariant 0 <= inp <= n - div && |r| == n && Words(r) && carryover < p
        invariant Value(r[..inp + div]) + Weight(inp + div) * carryover == Value(v[..inp]) * (wd * p)
      {
        Joins(v[inp], mod, carryover);
        Splits(v[inp], mod);
        ghost var before, c := r, carryover;
        var out := inp + div;
        r := r[out := Bits.Or(Shl(v[inp], mod), carryover)];
        carryover := Shr(v[inp], 32 - mod);
        assert r[..out] == before[..out];
        ValueTake(r, out);
        ValueTake(v, inp);
        WeightAdd(inp, div);
        NextWeight(out);
        LeftColumn(Weight(out), v[inp], p, c, r[out], carryover, Value(v[..inp]), Weight(inp), wd);
        inp := inp + 1;
      }
      carry := carryover;
    } else {
      ZeroPow2();
      while inp + div < n
        invariant 0 <= inp <= n - div && |r| == n && Words(r)
        invariant Value(r[..inp + div]) == Value(v[..inp]) * (wd * p)
      {
        ghost var before := r;
        var out := inp + div;
        r := r[out := v[inp]];
        assert r[..out] == before[..out];
        ValueTake(r, out);
        ValueTake(v, inp);
        WeightAdd(inp, div);
        LeftColumn(Weight(out), v[inp], p, 0, r[out], 0, Value(v[..inp]), Weight(inp), wd);
        inp := inp + 1;
      }
    }
    assert r[..n] == r;
    ValueSplit(v, n - div);
    WeightAdd(n - div, div);
    ValueFits(r);
    LeftDone(Value(v), Value(r), Value(v[..n - div]), Value(v[n - div..]), Weight(n - div), wd, p, carry);
  }

  lemma LowWords(v: seq<nat>, div: nat)
    requires div <= |v|
    ensures Value(seq(|v|, i => 0)[..div]) == 0 && Value(v[..0]) == 0
  {
    Zeros(seq(|v|, i => 0)[..div]);
  }

  lemma {:induction false} Zeros(s: seq<nat>)
    requires forall i | 0 <= i < |s| :: s[i] == 0
    ensures Value(s) == 0
  {
    if |s| > 0 { Zeros(s[1..]); }
  }

  lemma PositivePow2(n: nat)
    ensures 0 < Pow2(n)
  {
  }

  lemma ZeroPow2()
    ensures Pow2(0) == 1
  {
  }

  lemma NextWeight(n: nat)
    ensures Weight(n + 1) == W * Weight(n)
  {
  }

  // ---------- Right ----------

  /** The bits of word `k` that a right shift drops. */
  ghost function Dropped(v: seq<nat>, mod: nat, k: nat): nat {
    if k < |v| then v[k] % Pow2(mod) else 0
  }

  lemma RightJoin(x: nat, mod: nat, d: nat)
    requires x < W && 0 < mod < 32 && d < Pow2(mod)
    ensures Bits.Or(Shr(x, mod), d * Pow2(32 - mod)) == Shr(x, mod) + d * Pow2(32 - mod) < W
  {
    hide Pow2, Bits.Or, Shr;
    Crossing(mod);
    ShrBelow(x, mod);
    MultipleMod(d, Pow2(32 - mod));
    Bits.OrIsSum(d * Pow2(32 - mod), Shr(x, mod), 32 - mod);
    Below(d, Pow2(mod), Pow2(32 - mod), Shr(x, mod), W);
  }

  lemma RightColumn(x: nat, mod: nat, d: nat, e: nat)
    requires 0 < mod < 32 && x == Shr(x, mod) * Pow2(mod) + e
    ensures Pow2(mod) * (Shr(x, mod) + d * Pow2(32 - mod)) + e == x + W * d
  {
    hide Pow2, Shr;
    Crossing(mod);
    RightWeigh(Pow2(mod), Shr(x, mod), d, Pow2(32 - mod), W);
  }

  lemma ShrBelow(x: nat, mod: nat)
    requires x < W && mod <= 32
    ensures Shr(x, mod) < Pow2(32 - mod)
  {
    hide Pow2, Shr;
    ShrMeans(x, mod);
  }

  lemma ShrMeans(x: nat, mod: nat)
    requires x < W && mod <= 32
    ensures x == Shr(x, mod) * Pow2(mod) + x % Pow2(mod) && Shr(x, mod) < Pow2(32 - mod)
  {
    hide Pow2;
    Crossing(mod);
    DivBelow(x, Pow2(mod), Pow2(32 - mod));
  }

  lemma RightWeigh(p: nat, h: nat, d: nat, q: nat, w: nat)
    requires p * q == w
    ensures p * (h + d * q) == h * p + w * d
  {
    assert p * (d * q) == p * q * d;
  }

  lemma RightStep(p: nat, x: nat, r: nat, d: nat, d': nat, high: nat, done: nat)
    requires p * r + d' == x + W * d && high == p * done + d
    ensures x + W * high == p * (r + W * done) + d'
  {
    assert p * (W * done) == W * (p * done);
  }

  /** The words from `inp` on have been shifted. */
  ghost predicate Lowered(v: seq<nat>, r: seq<nat>, div: nat, mod: nat, inp: nat)
    requires div <= inp <= |v| == |r|
  {
    Words(r) && Value(v[inp..]) == Pow2(mod) * Value(r[inp - div..]) + Dropped(v, mod, inp)
  }

  lemma LowerWord(v: seq<nat>, r: seq<nat>, div: nat, mod: nat, inp: nat)
    requires Words(v) && div <= inp < |v| == |r| && 0 < mod < 32
    requires Lowered(v, r, div, mod, inp + 1) && Dropped(v, mod, inp + 1) < Pow2(mod)
    ensures Lowered(v, r[inp - div := Bits.Or(Shr(v[inp], mod), Dropped(v, mod, inp + 1) * Pow2(32 - mod))], div, mod, inp)
  {
    hide Value, Pow2, Shl, Shr, Bits.Or, Dropped;
    var d, out := Dropped(v, mod, inp + 1), inp - div;
    RightJoin(v[inp], mod, d);
    DroppedWord(v, mod, inp);
    RightColumn(v[inp], mod, d, Dropped(v, mod, inp));
    var r' := r[out := Bits.Or(Shr(v[inp], mod), d * Pow2(32 - mod))];
    assert r'[out + 1..] == r[out + 1..];
    ValueDrop(v, inp);
    ValueDrop(r', out);
    RightStep(Pow2(mod), v[inp], r'[out], d, Dropped(v, mod, inp), Value(v[inp + 1..]), Value(r[out + 1..]));
  }

  lemma LowerWhole(v: seq<nat>, r: seq<nat>, div: nat, inp: nat)
    requires Words(v) && div <= inp < |v| == |r| && Lowered(v, r, div, 0, inp + 1)
    ensures Lowered(v, r[inp - div := v[inp]], div, 0, inp)
  {
    hide Value, Dropped;
    var out, r' := inp - div, r[inp - div := v[inp]];
    DroppedNone(v);
    ZeroPow2();
    assert r'[out + 1..] == r[out + 1..];
    ValueDrop(v, inp);
    ValueDrop(r', out);
  }

  /** Word by word from the top, carrying down what is shifted out. */
  method ShiftRight(v: seq<nat>, shift: nat) returns (r: seq<nat>)
    requires Words(v) && shift < 32 * |v|
    ensures Words(r) && |r| == |v| && Value(r) == Value(v) / Pow2(shift)
  {
    hide Value, Weight, Pow2, Shl, Shr, Bits.Or, Dropped, Lowered;
    var n := |v|;
    r := seq(n, i => 0);
    var div, mod := shift / 32, shift % 32;
    NothingLowered(v, r, div, mod);
    var inp := n;
    if mod != 0 {
      var carryover: nat := 0;
      while inp != div
        invariant div <= inp <= n && |r| == n && Lowered(v, r, div, mod, inp)
        invariant carryover == Dropped(v, mod, inp) * Pow2(32 - mod) && Dropped(v, mod, inp) < Pow2(mod)
      {
        inp := inp - 1;
        var out := inp - div;
        LowerWord(v, r, div, mod, inp);
        DroppedWord(v, mod, inp);
        r := r[out := Bits.Or(Shr(v[inp], mod), carryover)];
        carryover := Shl(v[inp], 32 - mod);
      }
    } else {
      while inp != div
        invariant div <= inp <= n && |r| == n && Lowered(v, r, div, mod, inp)
      {
        inp := inp - 1;
        var out := inp - div;
        LowerWhole(v, r, div, inp);
        r := r[out := v[inp]];
      }
    }
    AllLowered(v, r, div, mod);
  }

  lemma NothingLowered(v: seq<nat>, r: seq<nat>, div: nat, mod: nat)
    requires r == seq(|v|, i => 0) && div <= |v| && mod < 32
    ensures Lowered(v, r, div, mod, |v|) && Dropped(v, mod, |v|) == 0 < Pow2(mod) && 0 * Pow2(32 - mod) == 0
  {
    hide Pow2, Value;
    HighWords(v, div, mod);
    DroppedNothing(v, mod);
    assert Pow2(mod) * 0 == 0;
  }

  lemma AllLowered(v: seq<nat>, r: seq<nat>, div: nat, mod: nat)
    requires Words(v) && div < |v| == |r| && mod < 32 && Lowered(v, r, div, mod, div)
    ensures Words(r) && Value(r) == Value(v) / Pow2(32 * div + mod)
  {
    hide Pow2, Value, Dropped;
    assert r[0..] == r;
    DroppedBelow(v, mod, div);
    RightDone(v, r, div, mod);
  }

  lemma ValueDrop(s: seq<nat>, n: nat)
    requires n < |s|
    ensures Value(s[n..]) == s[n] + W * Value(s[n + 1..])
  {
    assert s[n..][1..] == s[n + 1..];
  }

  lemma HighWords(v: seq<nat>, div: nat, mod: nat)
    requires div <= |v|
    ensures Value(seq(|v|, i => 0)[|v| - div..]) == 0 && Value(v[|v|..]) == 0
  {
    Zeros(seq(|v|, i => 0)[|v| - div..]);
  }

  lemma DroppedNothing(v: seq<nat>, mod: nat)
    ensures Dropped(v, mod, |v|) == 0 < Pow2(mod) && 0 * Pow2(32) == 0
  {
  }

  lemma DroppedNone(v: seq<nat>)
    ensures forall k: nat :: Dropped(v, 0, k) == 0
  {
    assert Pow2(0) == 1;
  }

  lemma DroppedBelow(v: seq<nat>, mod: nat, k: nat)
    ensures Dropped(v, mod, k) < Pow2(mod)
  {
  }

  /** What a word drops comes back as the carry into the next one. */
  lemma DroppedWord(v: seq<nat>, mod: nat, k: nat)
    requires Words(v) && k < |v| && 0 < mod < 32
    ensures v[k] == Shr(v[k], mod) * Pow2(mod) + Dropped(v, mod, k) && Dropped(v, mod, k) < Pow2(mod)
    ensures Shl(v[k], 32 - mod) == Dropped(v, mod, k) * Pow2(32 - mod)
  {
    hide Pow2, Shl, Shr;
    Splits(v[k], 32 - mod);
    ShrMeans(v[k], mod);
  }

  lemma RightDone(v: seq<nat>, r: seq<nat>, div: nat, mod: nat)
    requires Words(v) && div <= |v| && Dropped(v, mod, div) < Pow2(mod)
    requires Value(v[div..]) == Pow2(mod) * Value(r) + Dropped(v, mod, div)
    ensures Value(r) == Value(v) / Pow2(32 * div + mod)
  {
    hide Value, Weight, Pow2, Dropped;
    ValueSplit(v, div);
    ValueFits(v[..div]);
    WeightIsPow2(div);
    Pow2Add(32 * div, mod);
    Quotient(Value(v), Value(v[..div]), Pow2(32 * div), Pow2(mod), Value(r), Dropped(v, mod, div));
  }

  lemma Quotient(v: nat, low: nat, a: nat, b: nat, r: nat, d: nat)
    requires low < a && d < b && v == low + a * (b * r + d)
    ensures r == v / (a * b)
  {
    assert a * (b * r + d) == r * (a * b) + a * d;
    MulMonotone(d + 1, b, a);
    DivModUnique(v, a * b, r, a * d + low);
  }
}
