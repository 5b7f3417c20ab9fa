/** What the components say about sequences. */
module Sequences {

  ghost predicate Distinct<K>(s: seq<K>) {
    forall i, j :: 0 <= i < j < |s| ==> s[i] != s[j]
  }

  function SumOf(xs: seq<int>): int {
    if xs == [] then 0 else xs[0] + SumOf(xs[1..])
  }
}
