/** Lists of names without repetition. */
module Sequences {
  predicate Distinct(s: seq<string>) {
    forall i, j :: 0 <= i < j < |s| ==> s[i] != s[j]
  }

  /** A list without repetition is no longer than a set that holds its elements. */
  lemma {:induction false} DistinctIsShort(p: seq<string>, nodes: set<string>)
    requires Distinct(p) && forall x :: x in p ==> x in nodes
    ensures |p| <= |nodes|
  {
    if p != [] {
      var last := p[|p| - 1];
      DistinctIsShort(p[..|p| - 1], nodes - {last});
    }
  }
}
