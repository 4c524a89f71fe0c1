// Reading an entropy-coded segment: what its bytes mean up to the marker that ends it.
module EntropySegment {
  import opened Bytes

  datatype Fetch = Data(b: byte, next: nat) | Marker(code: byte, next: nat) | Starved

  // After a 0xFF: extra 0xFF bytes are swallowed, a zero makes it data.
  function AfterFF(input: seq<byte>, pos: nat): (f: Fetch)
    ensures f.Data? || f.Marker? ==> pos < f.next <= |input|
    decreases |input| - pos
  {
    if pos >= |input| then Starved
    else if input[pos] == 0xFF then AfterFF(input, pos + 1)
    else if input[pos] == 0 then Data(0xFF, pos + 1)
    else Marker(input[pos], pos + 1)
  }

  function FetchAt(input: seq<byte>, pos: nat): (f: Fetch)
    ensures f.Data? || f.Marker? ==> pos < f.next <= |input|
  {
    if pos >= |input| then Starved
    else if input[pos] == 0xFF then AfterFF(input, pos + 1)
    else Data(input[pos], pos + 1)
  }

  // The data bytes from pos on, and whether a marker ends them.
  function Segment(input: seq<byte>, pos: nat): seq<byte>
    decreases |input| - pos
  {
    match FetchAt(input, pos)
    case Data(b, next) => [b] + Segment(input, next)
    case _ => []
  }

  predicate EndsInMarker(input: seq<byte>, pos: nat)
    decreases |input| - pos
  {
    match FetchAt(input, pos)
    case Data(_, next) => EndsInMarker(input, next)
    case Marker(_, _) => true
    case Starved => false
  }

  lemma FetchStuffed(prefix: seq<byte>, b: byte, tail: seq<byte>)
    ensures FetchAt(prefix + StuffByte(b) + tail, |prefix|) == Data(b, |prefix + StuffByte(b)|)
  {
    var input := prefix + StuffByte(b) + tail;
    assert input[|prefix|] == b;
    if b == 0xFF { assert input[|prefix| + 1] == 0; }
  }

  lemma FetchEnd(prefix: seq<byte>, m: byte, rest: seq<byte>)
    requires 0 < m < 0xFF
    ensures Stuff([]) == [] && prefix + (Stuff([]) + ([0xFF, m] + rest)) == prefix + ([0xFF, m] + rest)
    ensures FetchAt(prefix + ([0xFF, m] + rest), |prefix|) == Marker(m, |prefix| + 2)
  {
    var input := prefix + ([0xFF, m] + rest);
    assert input[|prefix|] == 0xFF && input[|prefix| + 1] == m;
    assert Stuff([]) == [] && [] + ([0xFF, m] + rest) == [0xFF, m] + rest;
  }

  lemma StuffCons(b: byte, data: seq<byte>)
    ensures Stuff([b] + data) == StuffByte(b) + Stuff(data)
  {
    StuffConcat([b], data);
    StuffSnoc([], b);
    assert [] + [b] == [b] && [] + StuffByte(b) == StuffByte(b);
  }

  // What a stuffed segment followed by a marker reads as.
  lemma {:induction false} SegmentOfStuffed(prefix: seq<byte>, data: seq<byte>, m: byte, rest: seq<byte>)
    requires 0 < m < 0xFF
    ensures var input := prefix + (Stuff(data) + ([0xFF, m] + rest));
            Segment(input, |prefix|) == data && EndsInMarker(input, |prefix|)
    decreases |data|
  {
    hide FetchAt, StuffByte, Stuff;
    var end := [0xFF, m] + rest;
    var input := prefix + (Stuff(data) + end);
    if data == [] {
      FetchEnd(prefix, m, rest);
    } else {
      var b, tail := data[0], data[1..];
      assert data == [b] + tail;
      StuffCons(b, tail);
      assert input == (prefix + StuffByte(b)) + (Stuff(tail) + end);
      FetchStuffed(prefix, b, Stuff(tail) + end);
      SegmentOfStuffed(prefix + StuffByte(b), tail, m, rest);
    }
  }

  // The marker that ends the segment.
  function MarkerAfter(input: seq<byte>, pos: nat): (f: Fetch)
    ensures !f.Data? && (f.Marker? ==> f.next <= |input|)
    decreases |input| - pos
  {
    match FetchAt(input, pos)
    case Data(_, next) => MarkerAfter(input, next)
    case Marker(code, next) => Marker(code, next)
    case Starved => Starved
  }

  // After stuffed data comes the marker that was put there.
  lemma {:induction false} MarkerAfterStuffed(prefix: seq<byte>, data: seq<byte>, m: byte, rest: seq<byte>)
    requires 0 < m < 0xFF
    ensures var input := prefix + (Stuff(data) + ([0xFF, m] + rest));
            MarkerAfter(input, |prefix|) == Marker(m, |prefix + Stuff(data)| + 2)
    decreases |data|
  {
    hide FetchAt, StuffByte, Stuff;
    var end := [0xFF, m] + rest;
    var input := prefix + (Stuff(data) + end);
    if data == [] {
      FetchEnd(prefix, m, rest);
    } else {
      var b, tail := data[0], data[1..];
      assert data == [b] + tail;
      StuffCons(b, tail);
      assert input == (prefix + StuffByte(b)) + (Stuff(tail) + end);
      FetchStuffed(prefix, b, Stuff(tail) + end);
      MarkerAfterStuffed(prefix + StuffByte(b), tail, m, rest);
    }
  }
}
