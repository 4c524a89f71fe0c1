// The symbols of several segments together.
module ProgIntervals {
  import opened HuffTokens
  import opened HuffSegments

  lemma NoSegments()
    ensures AllOf([]) == []
  {
  }

  lemma OneSegment(toks: seq<Token>)
    ensures AllOf([toks]) == toks
  {
    assert [toks] == [] + [toks] && [] + toks == toks;
    AllOfSnoc([], toks);
  }

  lemma {:induction false} AllOfCons(toks: seq<Token>, segs: seq<seq<Token>>)
    ensures AllOf([toks] + segs) == toks + AllOf(segs)
    decreases |segs|
  {
    if segs == [] {
      OneSegment(toks);
      assert [toks] + [] == [toks] && toks + [] == toks;
    } else {
      var n := |segs| - 1;
      AllOfCons(toks, segs[..n]);
      assert ([toks] + segs)[..n + 1] == [toks] + segs[..n];
      assert (toks + AllOf(segs[..n])) + segs[n] == toks + (AllOf(segs[..n]) + segs[n]);
    }
  }
}
