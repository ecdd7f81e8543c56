/** How the generation stages see `crate::rng::Rng`: the only capability they use is
    `random_range(lo..=hi)`. A source is described by the answer it gives to its `call`-th
    request for a number in `lo..=hi`; a stage threads the number of calls made so far.
    Every run of any concrete generator is described by some such function. */
module Rng {

  type Source = (nat, nat, nat) -> nat

  /** The source keeps every answer inside the inclusive range it was asked for, as the
      `rand` crate's `random_range` does. */
  ghost predicate HonoursRanges(rng: Source) {
    forall call: nat, lo: nat, hi: nat :: lo <= hi ==> lo <= rng(call, lo, hi) <= hi
  }
}
