/** The RXS-M-XS output permutation and its inverse, on `w`-bit words. */
module PcgOutput {
  import opened Arith
  import opened Bits

  function Xorshift(x: nat, s: nat): nat {
    Xor(x, Shr(x, s))
  }

  lemma BitXorshift(x: nat, s: nat, i: nat)
    ensures Bit(Xorshift(x, s), i) == (Bit(x, i) != Bit(x, i + s))
  {
    BitXor(x, Shr(x, s), i);
    BitShr(x, s, i);
  }

  lemma XorshiftWidth(x: nat, s: nat, w: nat)
    requires x < Pow2(w)
    ensures Xorshift(x, s) < Pow2(w)
  {
    Width(x, Shr(x, s), w);
  }

  /** The top `2 * shift` of `bits` bits, recovered at once. */
  function Top(w: nat, x: nat, bits: nat, shift: nat): (r: nat)
    requires 2 * shift < bits <= w && x < Pow2(bits)
    ensures r < Pow2(bits)
  {
    MaskFits(bits - 2 * shift, w);
    var high := Not(Pow2(bits - 2 * shift) - 1, w);
    XorshiftWidth(x, shift, bits);
    AndAtMost(Xorshift(x, shift), high);
    And(Xorshift(x, shift), high)
  }

  /** The `bits - shift` bits that are left: their top recovered, their bottom still shifted over. */
  function Rest(w: nat, x: nat, bits: nat, shift: nat): (r: nat)
    requires 2 * shift < bits <= w && x < Pow2(bits)
    ensures r < Pow2(bits - shift)
  {
    var y := Or(Top(w, x, bits, shift), And(x, Pow2(bits - 2 * shift) - 1));
    AndMask(y, bits - shift);
    And(y, Pow2(bits - shift) - 1)
  }

  /** Backs out an xorshift of the low `bits` bits of a `w`-bit word. */
  function Unxorshift(w: nat, x: nat, bits: nat, shift: nat): (r: nat)
    requires shift >= 1 && bits <= w && x < Pow2(bits)
    ensures r < Pow2(bits)
    decreases bits
  {
    if 2 * shift >= bits then
      XorshiftWidth(x, shift, bits);
      Xorshift(x, shift)
    else
      var bottom := Unxorshift(w, Rest(w, x, bits, shift), bits - shift, shift);
      JoinFits(Top(w, x, bits, shift), bottom, bits, bits - 2 * shift);
      Or(Top(w, x, bits, shift), And(bottom, Pow2(bits - 2 * shift) - 1))
  }

  lemma MaskFits(n: nat, w: nat)
    requires n <= w
    ensures Pow2(n) - 1 < Pow2(w)
  {
    Pow2Monotone(n, w);
  }

  lemma JoinFits(top: nat, bottom: nat, bits: nat, low: nat)
    requires top < Pow2(bits) && low <= bits
    ensures Or(top, And(bottom, Pow2(low) - 1)) < Pow2(bits)
  {
    MaskFits(low, bits);
    AndAtMost(bottom, Pow2(low) - 1);
    Width(top, And(bottom, Pow2(low) - 1), bits);
  }

  lemma BitTop(w: nat, x: nat, bits: nat, shift: nat, i: nat)
    requires 2 * shift < bits <= w && x < Pow2(bits) && i < bits
    ensures Bit(Top(w, x, bits, shift), i) == (i >= bits - 2 * shift && Bit(x, i) != Bit(x, i + shift))
  {
    hide Bit, And, Pow2, Xorshift;
    var low := bits - 2 * shift;
    MaskFits(low, w);
    BitAnd(Xorshift(x, shift), Not(Pow2(low) - 1, w), i);
    BitXorshift(x, shift, i);
    BitNot(Pow2(low) - 1, w, i);
    BitMask(low, i);
  }

  lemma BitRest(w: nat, x: nat, bits: nat, shift: nat, i: nat)
    requires 2 * shift < bits <= w && x < Pow2(bits) && i < bits - shift
    ensures Bit(Rest(w, x, bits, shift), i)
         == if i >= bits - 2 * shift then Bit(x, i) != Bit(x, i + shift) else Bit(x, i)
  {
    hide Bit, And, Or, Pow2, Top;
    var low := bits - 2 * shift;
    var bottom := And(x, Pow2(low) - 1);
    var top := Top(w, x, bits, shift);
    BitAnd(Or(top, bottom), Pow2(bits - shift) - 1, i);
    BitMask(bits - shift, i);
    BitOr(top, bottom, i);
    BitAnd(x, Pow2(low) - 1, i);
    BitMask(low, i);
    BitTop(w, x, bits, shift, i);
  }

  /** The bits of the result above and below the split. */
  lemma BitUnxorshift(w: nat, x: nat, bits: nat, shift: nat, i: nat)
    requires 1 <= shift && 2 * shift < bits <= w && x < Pow2(bits) && i < bits
    ensures Bit(Unxorshift(w, x, bits, shift), i)
         == if i >= bits - 2 * shift then Bit(x, i) != Bit(x, i + shift)
            else Bit(Unxorshift(w, Rest(w, x, bits, shift), bits - shift, shift), i)
  {
    hide Bit, And, Or, Pow2, Top, Rest;
    var low := bits - 2 * shift;
    var bottom := Unxorshift(w, Rest(w, x, bits, shift), bits - shift, shift);
    BitOr(Top(w, x, bits, shift), And(bottom, Pow2(low) - 1), i);
    BitAnd(bottom, Pow2(low) - 1, i);
    BitMask(low, i);
    BitTop(w, x, bits, shift, i);
  }

  /** Undoing an xorshift gives the word back. */
  lemma {:induction false} UnxorshiftInverts(w: nat, y: nat, bits: nat, shift: nat)
    requires shift >= 1 && bits <= w && y < Pow2(bits)
    ensures Xorshift(y, shift) < Pow2(bits) && Unxorshift(w, Xorshift(y, shift), bits, shift) == y
    decreases bits
  {
    var x := Xorshift(y, shift);
    XorshiftWidth(y, shift, bits);
    hide Bit, Pow2, Xorshift, Rest;
    if 2 * shift >= bits {
      forall i: nat | i < bits ensures Bit(Unxorshift(w, x, bits, shift), i) == Bit(y, i) {
        BitXorshift(x, shift, i);
        TwoShifts(y, shift, bits, i);
      }
    } else {
      RestIsShifted(w, y, bits, shift);
      var z := And(y, Pow2(bits - shift) - 1);
      UnxorshiftInverts(w, z, bits - shift, shift);
      forall i: nat | i < bits ensures Bit(Unxorshift(w, x, bits, shift), i) == Bit(y, i) {
        BitUnxorshift(w, x, bits, shift, i);
        if i >= bits - 2 * shift { TwoShifts(y, shift, bits, i); } else { BitLow(y, bits - shift, i); }
      }
    }
    SameBits(Unxorshift(w, x, bits, shift), y, bits);
  }

  lemma TwoShifts(y: nat, shift: nat, bits: nat, i: nat)
    requires y < Pow2(bits) && i + 2 * shift >= bits
    ensures Bit(y, i) == (Bit(Xorshift(y, shift), i) != Bit(Xorshift(y, shift), i + shift))
  {
    hide Bit, Xorshift;
    BitXorshift(y, shift, i);
    BitXorshift(y, shift, i + shift);
    HighBit(y, bits, i + shift + shift);
  }

  lemma BitLow(y: nat, n: nat, i: nat)
    ensures Bit(And(y, Pow2(n) - 1), i) == (i < n && Bit(y, i))
    ensures And(y, Pow2(n) - 1) < Pow2(n)
  {
    BitAnd(y, Pow2(n) - 1, i);
    BitMask(n, i);
    AndMask(y, n);
  }

  /** What the recursive call is given is the xorshift of the lower bits. */
  lemma RestIsShifted(w: nat, y: nat, bits: nat, shift: nat)
    requires 1 <= shift && 2 * shift < bits <= w && y < Pow2(bits)
    ensures Xorshift(y, shift) < Pow2(bits) && And(y, Pow2(bits - shift) - 1) < Pow2(bits - shift)
    ensures Rest(w, Xorshift(y, shift), bits, shift) == Xorshift(And(y, Pow2(bits - shift) - 1), shift)
  {
    var n := bits - shift;
    var x, z := Xorshift(y, shift), And(y, Pow2(n) - 1);
    XorshiftWidth(y, shift, bits);
    BitLow(y, n, 0);
    XorshiftWidth(z, shift, n);
    hide Bit, Pow2, Xorshift, Rest, And;
    forall i: nat | i < n ensures Bit(Rest(w, x, bits, shift), i) == Bit(Xorshift(z, shift), i) {
      BitRest(w, x, bits, shift, i);
      BitXorshift(z, shift, i);
      BitLow(y, n, i);
      BitLow(y, n, i + shift);
      if i >= bits - 2 * shift { TwoShifts(y, shift, bits, i); } else { BitXorshift(y, shift, i); }
    }
    SameBits(Rest(w, x, bits, shift), Xorshift(z, shift), n);
  }

  /** And every word is the xorshift of what `unxorshift` makes of it. */
  lemma {:induction false} XorshiftInverts(w: nat, x: nat, bits: nat, shift: nat)
    requires shift >= 1 && bits <= w && x < Pow2(bits)
    ensures Xorshift(Unxorshift(w, x, bits, shift), shift) == x
    decreases bits
  {
    var u := Unxorshift(w, x, bits, shift);
    XorshiftWidth(u, shift, bits);
    hide Bit, Pow2, Xorshift, Rest;
    if 2 * shift >= bits {
      forall i: nat | i < bits ensures Bit(Xorshift(u, shift), i) == Bit(x, i) {
        TwoShifts(x, shift, bits, i);
        BitXorshift(x, shift, i);
        BitXorshift(x, shift, i + shift);
        BitXorshift(u, shift, i);
        HighBit(x, bits, i + shift + shift);
      }
    } else {
      XorshiftInverts(w, Rest(w, x, bits, shift), bits - shift, shift);
      hide Unxorshift;
      forall i: nat | i < bits ensures Bit(Xorshift(u, shift), i) == Bit(x, i) {
        BitXorshift(u, shift, i);
        BitUnxorshift(w, x, bits, shift, i);
        JoinedBit(w, x, bits, shift, i);
      }
    }
    SameBits(Xorshift(u, shift), x, bits);
  }

  lemma JoinedBit(w: nat, x: nat, bits: nat, shift: nat, i: nat)
    requires 1 <= shift && 2 * shift < bits <= w && x < Pow2(bits) && i < bits
    requires var rest := Rest(w, x, bits, shift);
             Xorshift(Unxorshift(w, rest, bits - shift, shift), shift) == rest
    ensures var u := Unxorshift(w, x, bits, shift);
            Bit(x, i) == (Bit(u, i) != Bit(u, i + shift))
  {
    hide Bit, Pow2, Xorshift, Rest, Unxorshift;
    var low := bits - 2 * shift;
    var rest := Rest(w, x, bits, shift);
    var v := Unxorshift(w, rest, bits - shift, shift);
    var u := Unxorshift(w, x, bits, shift);
    BitUnxorshift(w, x, bits, shift, i);
    if i + shift < bits { BitUnxorshift(w, x, bits, shift, i + shift); } else { HighBit(u, bits, i + shift); HighBit(x, bits, i + shift); }
    if i >= low {
      HighBit(x, bits, i + shift + shift);
    } else {
      BitRest(w, x, bits, shift, i);
      BitXorshift(v, shift, i);
      if i + shift >= low {
        BitRest(w, x, bits, shift, i + shift);
        BitXorshift(v, shift, i + shift);
        HighBit(v, bits - shift, i + shift + shift);
      }
    }
  }

  // ---------- The output function ----------

  function OpBits(w: nat): nat {
    if w >= 128 then 6 else if w >= 64 then 5 else if w >= 32 then 4 else if w >= 16 then 3 else 2
  }

  function McgMultiplier(w: nat): nat {
    match w
    case 8 => 217
    case 16 => 62169
    case 32 => 277803737
    case 64 => 12605985483714917081
    case _ => 17766728186571221404 * 0x1_0000_0000_0000_0000 + 12605985483714917081
  }

  function McgUnmultiplier(w: nat): nat {
    match w
    case 8 => 105
    case 16 => 28009
    case 32 => 2897767785
    case 64 => 15009553638781119849
    case _ => 14422606686972528997 * 0x1_0000_0000_0000_0000 + 15009553638781119849
  }

  predicate WordWidth(w: nat) { w == 8 || w == 16 || w == 32 || w == 64 || w == 128 }

  /** The shift that the top bits of the word select. */
  function RandomShift(w: nat, x: nat): (s: nat)
    requires WordWidth(w)
  {
    OpBits(w) + And(Shr(x, w - OpBits(w)), Pow2(OpBits(w)) - 1)
  }

  function Output(w: nat, x: nat): (r: nat)
    requires WordWidth(w) && x < Pow2(w)
    ensures r < Pow2(w)
  {
    var product := Xorshift(x, RandomShift(w, x)) * McgMultiplier(w) % Pow2(w);
    XorshiftWidth(product, (2 * w + 2) / 3, w);
    Xorshift(product, (2 * w + 2) / 3)
  }

  function Unoutput(w: nat, y: nat): (r: nat)
    requires WordWidth(w) && y < Pow2(w)
    ensures r < Pow2(w)
  {
    var x := Unxorshift(w, y, w, (2 * w + 2) / 3) * McgUnmultiplier(w) % Pow2(w);
    Unxorshift(w, x, w, RandomShift(w, x))
  }

  /** The multipliers of each width are inverses of one another. */
  lemma MultipliersInvert(w: nat)
    requires WordWidth(w)
    ensures Cong(McgMultiplier(w) * McgUnmultiplier(w), 1, Pow2(w))
  {
    hide Pow2, Cong;
    MachineWidths();
    var m := Pow2(w);
    match w
    case 8 => CongWitness(217 * 105, 1, m, 89);
    case 16 => CongWitness(62169 * 28009, 1, m, 26570);
    case 32 => CongWitness(277803737 * 2897767785, 1, m, 187431164);
    case 64 => CongWitness(McgMultiplier(64) * McgUnmultiplier(64), 1, m, 10257106323558699623);
    case _ => CongWitness(McgMultiplier(128) * McgUnmultiplier(128), 1, m, 256242532749265411604086694698165912274);
  }

  lemma ProductUndone(x: nat, a: nat, b: nat, m: nat)
    requires m > 0 && x < m && Cong(a * b, 1, m)
    ensures x * a % m * b % m == x
  {
    CongMod(x * a, m);
    CongMul(x * a % m, x * a, b, b, m);
    CongMul(x, x, a * b, 1, m);
    assert x * a * b == x * (a * b);
    ModSmall(x, m);
  }

  /** An xorshift that reaches no further than the top bits leaves the shift they select alone. */
  lemma RandomShiftKept(w: nat, x: nat, s: nat)
    requires WordWidth(w) && x < Pow2(w) && s >= OpBits(w)
    ensures RandomShift(w, Xorshift(x, s)) == RandomShift(w, x)
  {
    var top := w - OpBits(w);
    var a, b := Shr(Xorshift(x, s), top), Shr(x, top);
    XorshiftWidth(x, s, w);
    hide Bit, Xorshift;
    forall i: nat | i < w ensures Bit(a, i) == Bit(b, i) {
      BitShr(Xorshift(x, s), top, i);
      BitShr(x, top, i);
      BitXorshift(x, s, i + top);
      HighBit(x, w, i + top + s);
    }
    SameBits(a, b, w);
  }

  /** `unoutput` undoes `output`: the output function is one-to-one on states. */
  lemma UnoutputInverts(w: nat, x: nat)
    requires WordWidth(w) && x < Pow2(w)
    ensures Unoutput(w, Output(w, x)) == x
  {
    hide Xorshift, Unxorshift, Pow2, McgMultiplier, McgUnmultiplier, Cong, And, Shr;
    var mixed := Xorshift(x, RandomShift(w, x));
    XorshiftWidth(x, RandomShift(w, x), w);
    UnxorshiftInverts(w, mixed * McgMultiplier(w) % Pow2(w), w, (2 * w + 2) / 3);
    MultipliersInvert(w);
    ProductUndone(mixed, McgMultiplier(w), McgUnmultiplier(w), Pow2(w));
    RandomShiftKept(w, x, RandomShift(w, x));
    UnxorshiftInverts(w, x, w, RandomShift(w, x));
  }

  /** `output` undoes `unoutput`: every word is the output of exactly one state. */
  lemma OutputInverts(w: nat, y: nat)
    requires WordWidth(w) && y < Pow2(w)
    ensures Output(w, Unoutput(w, y)) == y
  {
    hide Xorshift, Unxorshift, Pow2, McgMultiplier, McgUnmultiplier, Cong, And, Shr;
    var u := Unxorshift(w, y, w, (2 * w + 2) / 3);
    var x := u * McgUnmultiplier(w) % Pow2(w);
    var s := RandomShift(w, x);
    var r := Unxorshift(w, x, w, s);
    XorshiftInverts(w, x, w, s);
    RandomShiftKept(w, r, s);
    MultipliersInvert(w);
    assert McgMultiplier(w) * McgUnmultiplier(w) == McgUnmultiplier(w) * McgMultiplier(w);
    ProductUndone(u, McgUnmultiplier(w), McgMultiplier(w), Pow2(w));
    XorshiftInverts(w, y, w, (2 * w + 2) / 3);
  }

  // ---------- What the output is, bit by bit ----------

  /** `y` is `x` exclusive-or `x >> s`. */
  ghost predicate Xored(x: nat, s: nat, y: nat) {
    forall i: nat :: Bit(y, i) == (Bit(x, i) != Bit(x, i + s))
  }

  /** `t` is the number in the top `op` of the `w` bits of `x`. */
  ghost predicate TopBits(w: nat, op: nat, x: nat, t: nat)
    requires op <= w
  {
    forall i: nat :: Bit(t, i) == (i < op && Bit(x, i + (w - op)))
  }

  /** Random xorshift, multiplication, xorshift: the top `op` bits select how far the first one shifts. */
  ghost predicate RxsMXs(w: nat, op: nat, multiplier: nat, x: nat, t: nat, m: nat, p: nat, r: nat)
    requires op <= w
  {
    && TopBits(w, op, x, t) && Xored(x, op + t, m)
    && p < Pow2(w) && Cong(p, m * multiplier, Pow2(w)) && Xored(p, (2 * w + 2) / 3, r)
  }

  lemma XorshiftXored(x: nat, s: nat)
    ensures Xored(x, s, Xorshift(x, s))
  {
    hide Bit, Xorshift;
    forall i: nat ensures Bit(Xorshift(x, s), i) == (Bit(x, i) != Bit(x, i + s)) { BitXorshift(x, s, i); }
  }

  lemma ShiftSelected(w: nat, op: nat, x: nat)
    requires op <= w
    ensures TopBits(w, op, x, And(Shr(x, w - op), Pow2(op) - 1))
  {
    hide Bit, And, Shr, Pow2;
    var y, t := Shr(x, w - op), And(Shr(x, w - op), Pow2(op) - 1);
    forall i: nat ensures Bit(t, i) == (i < op && Bit(x, i + (w - op))) {
      BitAnd(y, Pow2(op) - 1, i);
      BitShr(x, w - op, i);
      BitMask(op, i);
    }
  }

  /** The output of every state, at every width, with the constants of that width. */
  lemma OutputBits(w: nat, x: nat) returns (t: nat, m: nat, p: nat)
    requires WordWidth(w) && x < Pow2(w)
    ensures w == 8 ==> RxsMXs(8, 2, 217, x, t, m, p, Output(w, x))
    ensures w == 16 ==> RxsMXs(16, 3, 62169, x, t, m, p, Output(w, x))
    ensures w == 32 ==> RxsMXs(32, 4, 277803737, x, t, m, p, Output(w, x))
    ensures w == 64 ==> RxsMXs(64, 5, 12605985483714917081, x, t, m, p, Output(w, x))
    ensures w == 128 ==>
      RxsMXs(128, 6, 17766728186571221404 * 0x1_0000_0000_0000_0000 + 12605985483714917081, x, t, m, p, Output(w, x))
  {
    hide Xorshift, Xored, TopBits, And, Shr, Pow2, Cong, Bit;
    t := And(Shr(x, w - OpBits(w)), Pow2(OpBits(w)) - 1);
    m := Xorshift(x, RandomShift(w, x));
    p := m * McgMultiplier(w) % Pow2(w);
    ShiftSelected(w, OpBits(w), x);
    XorshiftXored(x, RandomShift(w, x));
    XorshiftXored(p, (2 * w + 2) / 3);
    CongMod(m * McgMultiplier(w), Pow2(w));
  }
}
