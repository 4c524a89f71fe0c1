// next_marker of jdmarker.c: looking for the marker that ends a segment.
module MarkerSearch {
  import opened Bytes
  import opened EntropySegment

  const RST0 := 0xD0

  // ---- Data that has arrived so far --------------------------------------------------------------------

  lemma AfterFFAvailable(input: seq<byte>, avail: nat, pos: nat)
    requires avail <= |input| && !AfterFF(input[..avail], pos).Starved?
    ensures AfterFF(input, pos) == AfterFF(input[..avail], pos)
    decreases avail - pos
  {
    if pos < avail && input[pos] == 0xFF { AfterFFAvailable(input, avail, pos + 1); }
  }

  // A byte or marker that can be read now is the one that is there in the end.
  lemma FetchAvailable(input: seq<byte>, avail: nat, pos: nat)
    requires avail <= |input| && !FetchAt(input[..avail], pos).Starved?
    ensures FetchAt(input, pos) == FetchAt(input[..avail], pos)
  {
    if input[pos] == 0xFF { AfterFFAvailable(input, avail, pos + 1); }
  }

  // ---- next_marker -----------------------------------------------------------------------------------------------

  datatype Restart = Restarted | MustWait | OutOfStep

  lemma AfterFFStep(have: seq<byte>, pos: nat)
    ensures pos >= |have| ==> AfterFF(have, pos) == Starved
    ensures pos < |have| && have[pos] == 0xFF ==> AfterFF(have, pos) == AfterFF(have, pos + 1)
    ensures pos < |have| && have[pos] != 0xFF ==>
        AfterFF(have, pos) == if have[pos] == 0 then Data(0xFF, pos + 1) else Marker(have[pos], pos + 1)
  {
  }

  // A marker that is there does not go away when more data arrive.
  lemma MarkerAvailable(input: seq<byte>, avail: nat, pos: nat)
    requires avail <= |input| && MarkerAfter(input[..avail], pos).Marker?
    ensures MarkerAfter(input, pos) == MarkerAfter(input[..avail], pos)
    decreases |input| - pos
  {
    hide AfterFF;
    FetchAvailable(input, avail, pos);
    match FetchAt(input, pos)
    case Data(_, next) => MarkerAvailable(input, avail, next);
    case _ =>
  }

  // Everything up to the next marker is skipped; the position moves on with what is
  // thrown away, also when the source has to wait.
  method NextMarker(input: seq<byte>, avail: nat, start: nat) returns (code: nat, pos: nat)
    requires start <= |input| && avail <= |input|
    ensures pos <= |input| && code < 256
    ensures var f := MarkerAfter(input[..avail], start);
            if f.Marker? then code != 0 && code == f.code && pos == f.next
            else code == 0 && MarkerAfter(input, pos) == MarkerAfter(input, start)
  {
    hide AfterFF;
    ghost var have := input[..avail];
    ghost var f := MarkerAfter(have, start);
    pos := start;
    while true
      invariant pos <= |input|
      invariant MarkerAfter(have, pos) == f && MarkerAfter(input, pos) == MarkerAfter(input, start)
      decreases |input| - pos
    {
      if pos >= avail {
        return 0, pos;
      }
      if input[pos] != 0xFF {
        pos := pos + 1;
        continue;
      }
      var next := pos + 1;
      var c: byte := 0xFF;
      while c == 0xFF
        invariant pos < next <= avail
        invariant c == 0xFF ==> AfterFF(have, pos + 1) == AfterFF(have, next)
        invariant c != 0xFF ==> AfterFF(have, pos + 1) == (if c == 0 then Data(0xFF, next) else Marker(c, next))
        decreases if c == 0xFF then avail + 1 - next else 0
      {
        AfterFFStep(have, next);
        if next >= avail {
          return 0, pos;
        }
        c := input[next];
        next := next + 1;
      }
      FetchAvailable(input, avail, pos);
      if c != 0 {
        return c, next;
      }
      pos := next;
    }
  }
}
