/** The random shuffles of the source, modelled as an arbitrary permutation supplied by the caller. */
module Randomness {

  /**
   * A shuffler answers the `k`-th shuffle of `xs`. The draw number `k` lets
   * successive shuffles of the same list come out differently, as
   * successive calls of a random generator do; every answer is a permutation.
   */
  ghost predicate IsShuffler<T(!new)>(shuffle: (nat, seq<T>) -> seq<T>) {
    forall k, xs :: multiset(shuffle(k, xs)) == multiset(xs)
  }
}
