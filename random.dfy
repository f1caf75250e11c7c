/** The random number generator, made an explicit input.

    The engine draws from one generator in a fixed program order. Here that
    generator is a tape: `rng(i)` is the raw value of the i-th draw, and every
    operation takes the position of its first draw and returns the position
    after its last one. A draw in `[lo, hi)` maps the raw value into the range;
    since every in-range value is reachable, a property proved for every tape
    holds for every sequence of draws the generator could produce. */
module Random {

  type Tape = nat -> nat

  /** `rng.gen_range(lo, hi)`: a value in `[lo, hi)`. The range must be
      non-empty (the generator panics otherwise). */
  function GenRange(rng: Tape, pos: nat, lo: nat, hi: nat): (v: nat)
    requires lo < hi
    ensures lo <= v < hi
  {
    lo + rng(pos) % (hi - lo)
  }

  /** `rng.gen_ratio(num, den)`: true with probability num/den. The generator
      panics unless `num <= den` and `den > 0`. */
  function GenRatio(rng: Tape, pos: nat, num: nat, den: nat): (b: bool)
    requires 0 < den && num <= den
    ensures num == 0 ==> !b
    ensures num == den ==> b
  {
    rng(pos) % den < num
  }

  /** Every value of a range is the outcome of some draw. */
  lemma EveryValueDrawable(lo: nat, hi: nat, v: nat)
    requires lo <= v < hi
    ensures exists rng: Tape :: GenRange(rng, 0, lo, hi) == v
  {
    var rng: Tape := _ => v - lo;
    assert GenRange(rng, 0, lo, hi) == v;
  }

  /** A ratio strictly between 0 and 1 can come out either way. */
  lemma EveryRatioOutcomeDrawable(num: nat, den: nat, b: bool)
    requires 0 < num < den
    ensures exists rng: Tape :: GenRatio(rng, 0, num, den) == b
  {
    var rng: Tape := _ => if b then 0 else num;
    assert GenRatio(rng, 0, num, den) == b;
  }
}
