// read_restart_marker of jdmarker.c, as process_restart of jdhuff.c uses it between two
// segments.
module HuffRestart {
  import opened MarkerSearch
  import opened Bytes
  import opened EntropySegment
  import opened HuffBitReader

  // The bits that are left are thrown away and the marker is read. A marker other than
  // the one expected is left to the source's own way of getting back into step, which is
  // not part of this model.
  method ReadRestart(input: seq<byte>, avail: nat, s0: BitState, num: nat) returns (r: Restart, s: BitState)
    requires GoodState(s0, |input|) && avail <= |input| && num < 8
    ensures GoodState(s, |input|) && s.bitsLeft == 0
    ensures AheadOf(input, avail, s0).Marker? <==> r != MustWait
    ensures r == MustWait ==>
        AheadOf(input, |input|, s) == AheadOf(input, |input|, s0) && s.insufficient == s0.insufficient
    ensures r != MustWait ==>
              var f := AheadOf(input, |input|, s0);
              && f == AheadOf(input, avail, s0)
              && (r == Restarted <==> f.code == 0xD0 + num)
              && (r == Restarted ==> s.pos == f.next && s.marker == 0 && !s.insufficient)
  {
    hide MarkerAfter;
    s := s0.(bitsLeft := 0);
    assert input[..|input|] == input;
    if s.marker == 0 {
      var code, pos := NextMarker(input, avail, s.pos);
      if MarkerAfter(input[..avail], s.pos).Marker? { MarkerAvailable(input, avail, s.pos); }
      s := s.(marker := code, pos := pos);
      if code == 0 {
        return MustWait, s;
      }
    }
    if s.marker != RST0 + num {
      return OutOfStep, s;
    }
    s := s.(marker := 0, insufficient := false);
    r := Restarted;
  }
}
