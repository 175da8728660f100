/** Sequences without repetitions, in order of first occurrence. */
module Sequences {

  function Distinct(s: seq<string>): seq<string> {
    if s == [] then []
    else
      var x, rest := s[|s| - 1], s[..|s| - 1];
      Distinct(rest) + if x in rest then [] else [x]
  }

  lemma {:induction false} DistinctIs(s: seq<string>)
    ensures forall x :: x in Distinct(s) <==> x in s
    ensures forall i, j :: 0 <= i < j < |Distinct(s)| ==> Distinct(s)[i] != Distinct(s)[j]
  {
    if s != [] {
      DistinctIs(s[..|s| - 1]);
      assert s == s[..|s| - 1] + [s[|s| - 1]];
    }
  }
}
