/** The shared pseudo-random source (`UnityEngine.Random`), made explicit.
    `Random.Range` is foreign code, so the generator is modelled by what it
    promises: the k-th draw, asked for the range between `lo` and `hi`,
    yields a value between the two (both ends included). A cursor counts the
    draws consumed so far. */
module Randomness {

  /** `r` lies between `lo` and `hi`, whichever of the two is larger. */
  predicate Between(r: real, lo: real, hi: real) {
    (lo <= r <= hi) || (hi <= r <= lo)
  }

  /** All the generator's future answers, by draw number and requested range. */
  type Draws = (nat, real, real) -> real

  /** The draws keep `Random.Range`'s promise. */
  ghost predicate InRange(draws: Draws) {
    forall k, lo, hi :: Between(draws(k, lo, hi), lo, hi)
  }

  class RandomSource {
    const draws: Draws
    var drawn: nat

    constructor (draws: Draws)
      requires InRange(draws)
      ensures InRange(this.draws)
      ensures this.draws == draws && drawn == 0
    {
      this.draws := draws;
      drawn := 0;
    }

    /** `Random.Range(lo, hi)`: consumes the next draw. */
    method Range(lo: real, hi: real) returns (r: real)
      modifies this
      ensures drawn == old(drawn) + 1
      ensures r == draws(old(drawn), lo, hi)
      ensures InRange(draws) ==> Between(r, lo, hi)
    {
      r := draws(drawn, lo, hi);
      drawn := drawn + 1;
    }
  }
}
