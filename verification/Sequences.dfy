/** Lists without repetition. */
module Sequences {

  /** No element occurs twice. */
  ghost predicate Once(l: seq<nat>)
  {
    forall i, j :: 0 <= i < j < |l| ==> l[i] != l[j]
  }
}
