// The entropy-coded segments of a Huffman scan: how they follow each other in the
// file with restart markers between them, and what a decoder finds there.
module HuffSegments {
  import opened MarkerSearch
  import opened Bytes
  import opened BitString
  import opened EntropySegment
  import opened HuffBitWriter
  import opened HuffBitReader
  import opened HuffTokens
  import opened HuffSeqEncoder

  // ---- Written -----------------------------------------------------------------------------------------------------

  // data holds the bits of the symbols, filled up to whole bytes with ones.
  ghost predicate Packs(t: Tables, toks: seq<Token>, data: seq<byte>) {
    && GoodTables(t) && TokensOk(toks)
    && exists n :: 0 <= n < 8 && ByteBits(data) == BitsOf(t, toks) + Ones(n)
  }

  // The segments written so far, each closed by its restart marker.
  ghost predicate Closed(t: Tables, dest: seq<byte>, segs: seq<seq<Token>>, out: seq<byte>)
    decreases |segs|
  {
    if segs == [] then out == dest
    else
      var n := |segs| - 1;
      exists before, data ::
        && Closed(t, dest, segs[..n], before) && Packs(t, segs[n], data)
        && out == before + Stuff(data) + [0xFF, 0xD0 + n % 8]
  }

  // The whole scan: restart markers between the segments, none after the last.
  ghost predicate Finished(t: Tables, dest: seq<byte>, segs: seq<seq<Token>>, out: seq<byte>) {
    && segs != []
    && exists before, data ::
         Closed(t, dest, segs[..|segs| - 1], before) && Packs(t, segs[|segs| - 1], data) && out == before + Stuff(data)
  }

  function AllOf(segs: seq<seq<Token>>): seq<Token> {
    if segs == [] then [] else AllOf(segs[..|segs| - 1]) + segs[|segs| - 1]
  }

  lemma WroteBits(t: Tables, bits: seq<bool>, toks: seq<Token>)
    requires Wrote(t, [], bits, toks)
    ensures GoodTables(t) && TokensOk(toks) && bits == BitsOf(t, toks)
  {
  }

  lemma AllOfSnoc(segs: seq<seq<Token>>, toks: seq<Token>)
    ensures AllOf(segs + [toks]) == AllOf(segs) + toks
  {
    assert (segs + [toks])[..|segs|] == segs;
  }

  lemma CloseOne(t: Tables, dest: seq<byte>, segs: seq<seq<Token>>, before: seq<byte>, toks: seq<Token>,
      data: seq<byte>, out: seq<byte>)
    requires Closed(t, dest, segs, before) && Packs(t, toks, data)
    requires out == before + Stuff(data) + [0xFF, RST0 + |segs| % 8]
    ensures Closed(t, dest, segs + [toks], out)
  {
    hide Packs;
    assert (segs + [toks])[..|segs|] == segs;
  }

  // ---- What is in the file -----------------------------------------------------------------------------------------

  // From state s on the input holds the segments segs, whose restart markers are
  // numbered from num on, and then some marker.
  ghost predicate Holds(input: seq<byte>, s: BitState, c: Tables, segs: seq<seq<Token>>, num: nat)
    decreases |segs|
  {
    && segs != [] && GoodTables(c) && TokensOk(segs[0])
    && Padded(Coming(input, s), c, segs[0])
    && var f := AheadOf(input, |input|, s);
    && f.Marker?
    && (|segs| > 1 ==>
        f.code == RST0 + num % 8 && Holds(input, BitState(f.next, 0, 0, 0, false), c, segs[1..], num + 1))
  }

  // The bits of the symbols, and fewer than eight ones.
  ghost predicate Padded(bits: seq<bool>, c: Tables, toks: seq<Token>)
    requires GoodTables(c) && TokensOk(toks)
  {
    exists n :: 0 <= n < 8 && bits == BitsOf(c, toks) + Ones(n)
  }

  // A fresh start at a position.
  function StartAt(pos: nat): BitState { BitState(pos, 0, 0, 0, false) }

  lemma HoldsSame(input: seq<byte>, d: BitState, d': BitState, c: Tables, segs: seq<seq<Token>>, num: nat)
    requires Holds(input, d, c, segs, num)
    requires Coming(input, d') == Coming(input, d) && AheadOf(input, |input|, d') == AheadOf(input, |input|, d)
    ensures Holds(input, d', c, segs, num)
  {
    hide Coming, AheadOf;
  }

  lemma HoldsLast(out: seq<byte>, before: seq<byte>, data: seq<byte>, c: Tables, toks: seq<Token>, m: byte,
      rest: seq<byte>, num: nat)
    requires Packs(c, toks, data) && out == before + Stuff(data) && 0 < m < 0xFF
    ensures Holds(out + ([0xFF, m] + rest), StartAt(|before|), c, [toks], num)
  {
    hide BitsOf, Stuff, Segment, MarkerAfter, GoodTables, TokensOk, Coming, AheadOf, Packs, Padded;
    assert before + Stuff(data) + [0xFF, m] <= out + ([0xFF, m] + rest) by {
      assert out + ([0xFF, m] + rest) == (before + Stuff(data) + [0xFF, m]) + rest;
    }
    SegmentFrom(out + ([0xFF, m] + rest), before, data, c, toks, m);
  }

  // One more segment and its restart marker in front.
  lemma HoldsMore(input: seq<byte>, before: seq<byte>, data: seq<byte>, c: Tables, toks: seq<Token>, num: nat,
      segs: seq<seq<Token>>)
    requires Packs(c, toks, data)
    requires var mid := before + Stuff(data) + [0xFF, RST0 + num % 8];
             mid <= input && Holds(input, StartAt(|mid|), c, segs, num + 1)
    ensures Holds(input, StartAt(|before|), c, [toks] + segs, num)
  {
    hide BitsOf, Stuff, Segment, MarkerAfter, GoodTables, TokensOk, Coming, AheadOf, Packs, Padded;
    var mid := before + Stuff(data) + [0xFF, RST0 + num % 8];
    SegmentFrom(input, before, data, c, toks, RST0 + num % 8);
    assert ([toks] + segs)[1..] == segs;
    assert AheadOf(input, |input|, StartAt(|before|)) == Marker(RST0 + num % 8, |mid|);
  }

  // What reading from the beginning of a segment finds.
  lemma SegmentFrom(input: seq<byte>, before: seq<byte>, data: seq<byte>, c: Tables, toks: seq<Token>, m: byte)
    requires Packs(c, toks, data) && 0 < m < 0xFF && before + Stuff(data) + [0xFF, m] <= input
    ensures |before| <= |input| && GoodTables(c) && TokensOk(toks) && Padded(Coming(input, StartAt(|before|)), c, toks)
    ensures AheadOf(input, |input|, StartAt(|before|)) == Marker(m, |before + Stuff(data) + [0xFF, m]|)
  {
    hide BitsOf, Stuff, Segment, MarkerAfter, GoodTables, TokensOk;
    var rest := input[|before + Stuff(data) + [0xFF, m]|..];
    assert input == before + (Stuff(data) + ([0xFF, m] + rest));
    SegmentOfStuffed(before, data, m, rest);
    MarkerAfterStuffed(before, data, m, rest);
    assert input[..|input|] == input;
    assert Bin(0, 0) + ByteBits(data) == ByteBits(data);
  }

  lemma LastClosed(c: Tables, dest: seq<byte>, segs: seq<seq<Token>>, out: seq<byte>)
      returns (before: seq<byte>, data: seq<byte>)
    requires Closed(c, dest, segs, out) && segs != []
    ensures var n := |segs| - 1;
            Closed(c, dest, segs[..n], before) && Packs(c, segs[n], data)
                && out == before + Stuff(data) + [0xFF, RST0 + n % 8]
  {
    hide Packs;
    var n := |segs| - 1;
    before, data :| Closed(c, dest, segs[..n], before) && Packs(c, segs[n], data)
        && out == before + Stuff(data) + [0xFF, RST0 + n % 8];
  }

  lemma {:induction false} HoldsClosed(input: seq<byte>, c: Tables, dest: seq<byte>, segs: seq<seq<Token>>,
      out: seq<byte>, more: seq<seq<Token>>)
    requires Closed(c, dest, segs, out) && out <= input && Holds(input, StartAt(|out|), c, more, |segs|)
    ensures Holds(input, StartAt(|dest|), c, segs + more, 0)
    decreases |segs|
  {
    hide Holds, Packs, Stuff;
    if segs == [] {
      assert segs + more == more;
    } else {
      hide Closed;
      var n: nat := |segs| - 1;
      var before, data := LastClosed(c, dest, segs, out);
      HoldsMore(input, before, data, c, segs[n], n, more);
      assert before <= input;
      HoldsClosed(input, c, dest, segs[..n], before, [segs[n]] + more);
      assert segs[..n] + ([segs[n]] + more) == segs + more;
    }
  }

  lemma LastSegment(c: Tables, dest: seq<byte>, segs: seq<seq<Token>>, out: seq<byte>)
      returns (before: seq<byte>, data: seq<byte>)
    requires Finished(c, dest, segs, out)
    ensures segs != []
    ensures Closed(c, dest, segs[..|segs| - 1], before) && Packs(c, segs[|segs| - 1], data)
        && out == before + Stuff(data)
  {
    hide Packs, Closed;
    before, data :| Closed(c, dest, segs[..|segs| - 1], before) && Packs(c, segs[|segs| - 1], data)
        && out == before + Stuff(data);
  }

  // What the encoder has written, followed by any marker, holds its segments.
  lemma FinishedHolds(c: Tables, dest: seq<byte>, segs: seq<seq<Token>>, out: seq<byte>, m: byte, rest: seq<byte>)
    requires Finished(c, dest, segs, out) && 0 < m < 0xFF
    ensures Holds(out + ([0xFF, m] + rest), StartAt(|dest|), c, segs, 0)
  {
    hide Holds, Packs, Closed, Stuff, Finished;
    var before, data := LastSegment(c, dest, segs, out);
    var n: nat := |segs| - 1;
    HoldsLast(out, before, data, c, segs[n], m, rest, n);
    HoldsClosed(out + ([0xFF, m] + rest), c, dest, segs[..n], before, [segs[n]]);
    assert segs[..n] + [segs[n]] == segs;
  }

  lemma {:induction false} ClosedLonger(c: Tables, dest: seq<byte>, segs: seq<seq<Token>>, out: seq<byte>)
    requires Closed(c, dest, segs, out)
    ensures dest <= out
    decreases |segs|
  {
    hide Packs;
    if segs != [] {
      var before, data := LastClosed(c, dest, segs, out);
      ClosedLonger(c, dest, segs[..|segs| - 1], before);
    }
  }

  lemma DestIsPrefix(c: Tables, dest: seq<byte>, segs: seq<seq<Token>>, out: seq<byte>)
    requires Finished(c, dest, segs, out)
    ensures dest <= out
  {
    hide Packs, Closed, Finished;
    var before, data := LastSegment(c, dest, segs, out);
    ClosedLonger(c, dest, segs[..|segs| - 1], before);
  }
}
