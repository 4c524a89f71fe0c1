// The arithmetic codec as a whole: one segment through arith_encode and
// finish_pass, a marker, and back through arith_decode.
module ArithCodec {
  import opened Bytes
  import opened Aritab
  import opened ArithInterval
  import opened EntropySegment
  import E = ArithEncoder
  import D = ArithDecoder

  // What an encoder run leaves behind.
  ghost predicate Encodes(t: Table, init: seq<int>, ds: seq<Decision>, dest: seq<byte>, out: seq<byte>,
      data: seq<byte>) {
    && GoodStats(init) && GoodDecisions(ds, |init|)
    && out == dest + Stuff(data)
    && (data != [] ==> data[|data| - 1] != 0)
    && Contains(Run(t, State(FULL, init), ds).iv, data)
  }

  // A run of arith_encode over the decisions of a scan.
  method EncodeAll(e: E.Encoder, ds: seq<Decision>)
    requires e.Valid() && e.history == [] && GoodDecisions(ds, e.stats.Length)
    modifies e, e.stats
    ensures e.Valid() && e.history == ds && e.SameSegment()
  {
    hide e.Valid;
    for i := 0 to |ds|
      invariant e.Valid() && e.history == ds[..i] && e.SameSegment()
    {
      e.ArithEncode(ds[i].bin, ds[i].bit);
      assert Decision(ds[i].bin, ds[i].bit) == ds[i];
      assert ds[..i + 1] == ds[..i] + [ds[i]];
    }
    assert ds[..|ds|] == ds;
  }

  // start_pass, the decisions, finish_pass.
  method EncodeSegment(t: Table, init: seq<int>, ds: seq<Decision>, dest: seq<byte>)
    returns (out: seq<byte>, stats: seq<int>, ghost data: seq<byte>)
    requires GoodStats(init) && GoodDecisions(ds, |init|)
    ensures Encodes(t, init, ds, dest, out, data)
    ensures stats == Run(t, State(FULL, init), ds).stats
  {
    hide E.Encoder.OutputOk, E.Encoder.Represents, Contains, Run, Stuff, GoodStats;
    var e := new E.Encoder(t, init, dest);
    EncodeAll(e, ds);
    stats := e.stats[..];
    e.FinishPass();
    out, data := e.out, e.data;
  }

  predicate OverBins(ds: seq<Decision>, bins: seq<nat>) {
    |ds| == |bins| && forall i :: 0 <= i < |ds| ==> ds[i].bin == bins[i] && 0 <= ds[i].bit <= 1
  }

  lemma OverBinsSnoc(ds: seq<Decision>, bins: seq<nat>, d: Decision)
    requires OverBins(ds, bins) && 0 <= d.bit <= 1
    ensures OverBins(ds + [d], bins + [d.bin])
  {
  }

  lemma NothingOver()
    ensures OverBins([], [])
  {
  }

  // A run of arith_decode over the given bins, from any source whatever.
  method DecodeSegment(t: Table, init: seq<int>, order: seq<nat>, source: seq<byte>)
    returns (ok: bool, ds: seq<Decision>, stats: seq<int>)
    requires GoodStats(init)
    requires forall i :: 0 <= i < |order| ==> order[i] < |init|
    ensures EndsInMarker(source, 0) ==> ok
    ensures ok ==> OverBins(ds, order) && GoodDecisions(ds, |init|)
    ensures ok ==> Contains(Run(t, State(FULL, init), ds).iv, Segment(source, 0))
    ensures ok ==> stats == Run(t, State(FULL, init), ds).stats
  {
    hide D.Decoder.Valid, OverBins, Segment, EndsInMarker, Contains, Run, GoodStats;
    var d := new D.Decoder(t, init, source);
    NothingOver();
    ds, stats := [], [];
    for i := 0 to |order|
      invariant d.Valid() && fresh(d) && fresh(d.stats) && d.base == 0 && d.entry == State(FULL, init)
      invariant d.history == ds && OverBins(ds, order[..i])
    {
      var bit;
      ok, bit := d.ArithDecode(order[i]);
      if !ok { return; }
      OverBinsSnoc(ds, order[..i], Decision(order[i], bit));
      assert order[..i + 1] == order[..i] + [order[i]];
      ds := ds + [Decision(order[i], bit)];
    }
    assert order[..|order|] == order;
    d.StreamInside();
    ok, stats := true, d.stats[..];
  }

  // The segment as the decoder finds it: the encoder's bytes, then a marker.
  function Source(out: seq<byte>, dest: seq<byte>, marker: byte, rest: seq<byte>): seq<byte>
    requires |dest| <= |out|
  {
    out[|dest|..] + [0xFF, marker] + rest
  }

  // Whatever the decoder returned over the encoder's bytes and a marker is what
  // was encoded; dropped trailing zero bytes and stuffing make no difference.
  lemma DecodedIsEncoded(t: Table, init: seq<int>, ds: seq<Decision>, es: seq<Decision>, dest: seq<byte>,
                         out: seq<byte>, data: seq<byte>, marker: byte, rest: seq<byte>)
    requires Encodes(t, init, ds, dest, out, data) && 0 < marker < 0xFF
    requires GoodDecisions(es, |init|) && SameBins(ds, es)
    requires Contains(Run(t, State(FULL, init), es).iv, Segment(Source(out, dest, marker, rest), 0))
    ensures es == ds
  {
    SourceReadsBack(dest, out, data, marker, rest);
    StreamDeterminesBits(t, State(FULL, init), ds, es, data);
  }

  lemma SourceReadsBack(dest: seq<byte>, out: seq<byte>, data: seq<byte>, marker: byte, rest: seq<byte>)
    requires out == dest + Stuff(data) && 0 < marker < 0xFF
    ensures Segment(Source(out, dest, marker, rest), 0) == data
    ensures EndsInMarker(Source(out, dest, marker, rest), 0)
  {
    SegmentOfStuffed([], data, marker, rest);
    assert Source(out, dest, marker, rest) == [] + (Stuff(data) + ([0xFF, marker] + rest));
  }

  function BinsOf(ds: seq<Decision>): (bins: seq<nat>)
    ensures |bins| == |ds| && forall i :: 0 <= i < |ds| ==> bins[i] == ds[i].bin
  {
    seq(|ds|, i requires 0 <= i < |ds| => ds[i].bin)
  }

  // What a decoder run over a source comes to.
  predicate Decodes(t: Table, init: seq<int>, source: seq<byte>, bins: seq<nat>, es: seq<Decision>, stats: seq<int>) {
    && GoodStats(init) && GoodDecisions(es, |init|) && OverBins(es, bins)
    && Contains(Run(t, State(FULL, init), es).iv, Segment(source, 0)) && stats == Run(t, State(FULL, init), es).stats
  }

  // The round trip, over jpeg_aritab or any other table: out is what arith_encode and
  // finish_pass write, and from out and a marker arith_decode gets the decisions back;
  // both coders end with the same statistics.
  method RoundTrip(t: Table, init: seq<int>, ds: seq<Decision>, dest: seq<byte>, marker: byte, rest: seq<byte>)
    returns (out: seq<byte>, es: seq<Decision>, encStats: seq<int>, decStats: seq<int>, ghost data: seq<byte>)
    requires GoodStats(init) && GoodDecisions(ds, |init|) && 0 < marker < 0xFF
    ensures Encodes(t, init, ds, dest, out, data) && |dest| <= |out| && encStats == Run(t, State(FULL, init), ds).stats
    ensures Decodes(t, init, Source(out, dest, marker, rest), BinsOf(ds), es, decStats)
    ensures es == ds && encStats == decStats
  {
    var enc;
    out, enc, data := EncodeSegment(t, init, ds, dest);
    SourceReadsBack(dest, out, data, marker, rest);
    var ok, found, dec := DecodeSegment(t, init, BinsOf(ds), Source(out, dest, marker, rest));
    DecodedIsEncoded(t, init, ds, found, dest, out, data, marker, rest);
    es, encStats, decStats := found, enc, dec;
  }
}
