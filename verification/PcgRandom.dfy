/** The generator object: its state, its stream, and moving along its sequence. */
module PcgRandom {
  import opened Arith
  import opened Bits
  import opened PcgEngine
  import PcgOutput

  lemma OrOne(x: nat)
    requires x % 2 == 0
    ensures Or(x, 1) == x + 1
  {
    assert Pow2(1) == 2;
    OrIsSum(x, 1, 1);
  }

  /** The increment `set_stream` selects: odd, and different for different sequence numbers. */
  function StreamIncrement(k: nat, stream: nat): (inc: nat)
    requires k >= 1
  {
    Or(2 * stream % Pow2(k), 1)
  }

  lemma StreamIncrementMeans(k: nat, stream: nat)
    requires k >= 1
    ensures var inc := StreamIncrement(k, stream);
            inc < Pow2(k) && inc % 2 == 1 && Shr(inc, 1) == stream % Pow2(k - 1)
  {
    var p := Pow2(k - 1);
    ModTwo(2 * stream, p);
    assert 2 * stream % Pow2(k) == 2 * (stream % p);
    OrOne(2 * (stream % p));
    assert Shr(2 * (stream % p) + 1, 1) == Shr(stream % p, 0);
  }

  lemma OrThree(k: nat, x: nat)
    requires k >= 2 && x < Pow2(k)
    ensures Or(x, 3) < Pow2(k) && Or(x, 3) % 4 == 3
  {
    Pow2Monotone(2, k);
    assert Pow2(2) == 4;
    Width(x, 3, k);
    assert Or(x / 2 / 2, 0) == x / 2 / 2;
    assert Or(x / 2, 1) % 2 == 1;
    assert Or(x, 3) == if x == 0 then 3 else 1 + 2 * Or(x / 2, 1);
  }

  lemma WholeMask(k: nat, isMcg: bool, x: nat)
    requires StateOf(k, isMcg, x)
    ensures And(x, Pow2(k) - 1) == x
  {
    hide And;
    AndMask(x, k);
    ModSmall(x, Pow2(k));
  }

  class Engine {
    const k: nat
    const mult: nat
    const isMcg: bool
    var inc: nat
    var state: nat

    ghost predicate Valid()
      reads this
    {
      Generator(k, Step(), isMcg) && StateOf(k, isMcg, state)
    }

    ghost function Step(): Affine
      reads this`inc
    {
      Affine(mult, inc)
    }

    constructor (k: nat, mult: nat, isMcg: bool, inc: nat, seed: nat)
      requires Generator(k, Affine(mult, inc), isMcg) && seed < Pow2(k)
      ensures Valid() && this.k == k && this.mult == mult && this.isMcg == isMcg && this.inc == inc
      ensures !isMcg ==> state == Bump(k, Step(), (seed + inc) % Pow2(k))
      ensures isMcg ==> forall i: nat :: Bit(state, i) == (i < 2 || Bit(seed, i))
    {
      this.k, this.mult, this.isMcg, this.inc := k, mult, isMcg, inc;
      this.state := if isMcg then Or(seed, 3) else ((seed + inc) % Pow2(k) * mult + inc) % Pow2(k);
      McgIsWide(k, Affine(mult, inc), isMcg);
      if isMcg {
        OrThree(k, seed);
        assert Pow2(2) - 1 == 3;
        forall i: nat ensures Bit(Or(seed, 3), i) == (i < 2 || Bit(seed, i)) {
          BitOr(seed, 3, i);
          BitMask(2, i);
        }
      }
    }

    constructor WithStream(k: nat, mult: nat, seed: nat, stream: nat)
      requires k >= 1 && mult < Pow2(k) && mult % 4 == 1 && seed < Pow2(k)
      ensures Valid() && this.k == k && this.mult == mult && !isMcg && inc == StreamIncrement(k, stream)
      ensures state == Bump(k, Step(), (seed + inc) % Pow2(k))
    {
      var inc := StreamIncrement(k, stream);
      this.k, this.mult, this.isMcg, this.inc := k, mult, false, inc;
      this.state := ((seed + inc) % Pow2(k) * mult + inc) % Pow2(k);
      StreamIncrementMeans(k, stream);
    }

    /** One step; `previous` chooses whether the output is drawn from the state left or entered. */
    method BaseGenerate(previous: bool) returns (r: nat)
      requires Valid()
      modifies `state
      ensures Valid() && state == Bump(k, Step(), old(state)) && r == if previous then old(state) else state
    {
      StaysState(k, Step(), isMcg, state);
      r := state;
      state := (state * mult + inc) % Pow2(k);
      if !previous { r := state; }
    }

    /** The next number of an RXS-M-XS generator: the state it is drawn from can be told from it. */
    method Generate(previous: bool) returns (r: nat)
      requires Valid() && PcgOutput.WordWidth(k)
      modifies `state
      ensures Valid() && state == Bump(k, Step(), old(state)) && r < Pow2(k)
      ensures r == PcgOutput.Output(k, if previous then old(state) else state)
      ensures PcgOutput.Unoutput(k, r) == if previous then old(state) else state
    {
      hide PcgOutput.Output, PcgOutput.Unoutput, Pow2, Generator, Bump;
      var drawn := BaseGenerate(previous);
      PcgOutput.UnoutputInverts(k, drawn);
      r := PcgOutput.Output(k, drawn);
    }

    method Advance(delta: nat)
      requires Valid()
      modifies `state
      ensures Valid() && state == Iterate(k, Step(), delta, old(state))
    {
      WalkStays(k, Step(), isMcg, delta, state);
      state := AdvanceState(k, state, delta, mult, inc);
    }

    /** Lands where `delta` forward steps lead back to the state it started from. */
    method Backstep(delta: nat)
      requires Valid() && delta < Pow2(k)
      modifies `state
      ensures Valid() && Iterate(k, Step(), delta, state) == old(state)
      ensures forall x: nat | x < Pow2(k) && Iterate(k, Step(), delta, x) == old(state) :: x == state
    {
      BackstepLands(k, Step(), delta, state);
      hide Iterate, Pow2;
      Advance(Negate(k, delta));
    }

    method SetStream(stream: nat)
      requires Valid() && !isMcg
      modifies `inc
      ensures Valid() && inc == StreamIncrement(k, stream)
    {
      McgIsWide(k, Step(), isMcg);
      StreamIncrementMeans(k, stream);
      inc := Or(2 * stream % Pow2(k), 1);
    }

    /** `lhs - this`: the one number of steps below the period that leads from here to there. */
    method StepsTo(lhs: Engine) returns (d: nat)
      requires Valid() && lhs.Valid() && lhs.k == k && lhs.mult == mult && lhs.isMcg == isMcg
      ensures k >= Offset(isMcg) && d < Pow2(k - Offset(isMcg)) && Iterate(k, Step(), d, state) == lhs.state
      ensures forall n: nat | n < Pow2(k - Offset(isMcg)) && Iterate(k, Step(), n, state) == lhs.state :: n == d
    {
      hide And, Iterate, Pow2, Generator, StateOf;
      d := Distance(k, state, lhs.state, mult, inc, isMcg, Pow2(k) - 1);
      ghost var f := Step();
      WalkStays(k, f, isMcg, d, state);
      WholeMask(k, isMcg, lhs.state);
      WholeMask(k, isMcg, Iterate(k, f, d, state));
      forall n: nat | n < Pow2(k - Offset(isMcg)) && Iterate(k, f, n, state) == lhs.state ensures n == d {
        StepsUnique(k, f, isMcg, n, d, state);
      }
    }
  }
}
