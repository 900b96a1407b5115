/** Facts about sequences that several modules use. */
module Sequences {

  ghost predicate Distinct(xs: seq<int>) {
    forall i, j :: 0 <= i < j < |xs| ==> xs[i] != xs[j]
  }

  /** What stands at a position and after it, when the text from there on is `front + rest`. */
  lemma Peel(text: string, pos: nat, front: string, rest: string)
    requires pos <= |text| && text[pos..] == front + rest
    ensures pos + |front| <= |text| && text[pos + |front|..] == rest
    ensures front != "" ==> pos < |text| && text[pos] == front[0]
  {
    assert text[pos + |front|..] == text[pos..][|front|..];
    if front != "" {
      assert text[pos] == text[pos..][0];
    }
  }
}
