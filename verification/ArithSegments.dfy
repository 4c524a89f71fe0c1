// The segments of an arithmetic-coded scan: how they follow each other in the file with
// restart markers between them, and what a decoder finds there. Each of them starts with
// the same statistics.
module ArithSegments {
  import opened Bytes
  import opened Aritab
  import opened ArithAdapt
  import opened ArithInterval
  import opened ArithBinarise
  import opened ArithBins
  import opened EntropySegment
  import opened MarkerSearch

  // The interval of a segment that starts afresh.
  function IntervalOf(t: Table, ds: seq<Decision>): (iv: Interval)
    requires GoodDecisions(ds, BINS)
  {
    Run(t, State(FULL, StartStats()), ds).iv
  }

  // ---- Written ---------------------------------------------------------------------------------------------------

  // The number of the data is in the interval of the decisions, and does not end in zero.
  ghost predicate Coded(t: Table, ds: seq<Decision>, data: seq<byte>) {
    GoodDecisions(ds, BINS) && Contains(IntervalOf(t, ds), data) && (data != [] ==> data[|data| - 1] != 0)
  }

  ghost predicate AllCoded(t: Table, segs: seq<seq<Decision>>, datas: seq<seq<byte>>) {
    |segs| == |datas| && forall i :: 0 <= i < |segs| ==> Coded(t, segs[i], datas[i])
  }

  // Segments that are closed by their markers, from number num on.
  function Closed(datas: seq<seq<byte>>, num: nat): (out: seq<byte>) {
    if datas == [] then [] else Stuff(datas[0]) + [0xFF, 0xD0 + num % 8] + Closed(datas[1..], num + 1)
  }

  // The whole scan: restart markers between the segments, none after the last.
  ghost predicate Finished(t: Table, dest: seq<byte>, segs: seq<seq<Decision>>, datas: seq<seq<byte>>,
      out: seq<byte>) {
    && segs != [] && AllCoded(t, segs, datas)
    && out == dest + Closed(datas[..|datas| - 1], 0) + Stuff(datas[|datas| - 1])
  }

  lemma {:induction false} ClosedSnoc(datas: seq<seq<byte>>, data: seq<byte>, num: nat)
    ensures Closed(datas + [data], num) == Closed(datas, num) + (Stuff(data) + [0xFF, RST0 + (num + |datas|) % 8])
    decreases |datas|
  {
    hide Stuff;
    var all := datas + [data];
    if datas == [] {
      assert all == [data] && all[1..] == [];
    } else {
      assert all[0] == datas[0] && all[1..] == datas[1..] + [data];
      ClosedSnoc(datas[1..], data, num + 1);
    }
  }

  // ---- Read ------------------------------------------------------------------------------------------------------

  // The segment at base, ended by a marker, has a number in the interval of ds.
  ghost predicate Streams(t: Table, ds: seq<Decision>, input: seq<byte>, base: nat) {
    GoodDecisions(ds, BINS) && EndsInMarker(input, base) && Contains(IntervalOf(t, ds), Segment(input, base))
  }

  // The segments are there from base on, with restart markers from number num on.
  ghost predicate Holds(t: Table, input: seq<byte>, base: nat, segs: seq<seq<Decision>>, num: nat)
    decreases |segs|, 0
  {
    segs != [] && Streams(t, segs[0], input, base) && Follows(t, input, base, segs[1..], num)
  }

  // Where the segment behind the one at base starts.
  function NextStart(input: seq<byte>, base: nat): (pos: nat)
  {
    var f := MarkerAfter(input, base);
    if f.Marker? then f.next else |input|
  }

  // They are there behind the segment at base, if there are more.
  ghost predicate Follows(t: Table, input: seq<byte>, base: nat, segs: seq<seq<Decision>>, num: nat)
    decreases |segs|, 1
  {
    segs == [] || (
      var f := MarkerAfter(input, base);
      f.Marker? && f.code == RST0 + num % 8 && Holds(t, input, NextStart(input, base), segs, num + 1))
  }

  // What has been written is what is found.
  lemma {:induction false} FinishedHolds(t: Table, before: seq<byte>, segs: seq<seq<Decision>>,
      datas: seq<seq<byte>>, num: nat, marker: byte, rest: seq<byte>)
    requires AllCoded(t, segs, datas) && segs != [] && 0 < marker < 0xFF
    ensures var last := |datas| - 1;
            Holds(t, before + (Closed(datas[..last], num) + (Stuff(datas[last]) + ([0xFF, marker] + rest))), |before|,
                  segs, num)
    decreases |segs|
  {
    hide Stuff, Segment, MarkerAfter, EndsInMarker, Contains, Run, GoodDecisions;
    var last := |datas| - 1;
    var tail := Stuff(datas[last]) + ([0xFF, marker] + rest);
    var input := before + (Closed(datas[..last], num) + tail);
    assert Coded(t, segs[0], datas[0]);
    if last == 0 {
      assert datas[..last] == [] && Closed([], num) + tail == tail;
      SegmentOfStuffed(before, datas[0], marker, rest);
    } else {
      var more := datas[1..];
      var m: byte := RST0 + num % 8;
      var behind := Closed(more[..last - 1], num + 1) + tail;
      assert datas[..last][0] == datas[0] && datas[..last][1..] == more[..last - 1] && more[last - 1] == datas[last];
      var mid := before + Stuff(datas[0]) + [0xFF, m];
      ClosedFirst(before, Stuff(datas[0]), [0xFF, m], Closed(more[..last - 1], num + 1), tail);
      SegmentOfStuffed(before, datas[0], m, behind);
      MarkerAfterStuffed(before, datas[0], m, behind);
      assert AllCoded(t, segs[1..], more);
      FinishedHolds(t, mid, segs[1..], more, num + 1, marker, rest);
      assert |mid| == |before + Stuff(datas[0])| + 2;
    }
  }

  lemma ClosedFirst(before: seq<byte>, data: seq<byte>, mark: seq<byte>, closed: seq<byte>, tail: seq<byte>)
    ensures before + (data + mark + closed + tail) == before + (data + (mark + (closed + tail)))
    ensures before + (data + mark + closed + tail) == (before + data + mark) + (closed + tail)
  {
  }

  // ---- Clearing the statistics -----------------------------------------------------------------------------------

  // What emit_restart and process_restart clear: the areas of the scan's own tables.
  function Cleared(stats: seq<int>, bins: set<nat>): (r: seq<int>)
    requires |stats| == BINS
    ensures |r| == BINS
  {
    seq(BINS, b requires 0 <= b < BINS => if b in bins && b != FIXED_BIN then 0 else stats[b])
  }

  // The entry of the fixed bin leads to itself.
  predicate StaysFixed(t: Table) {
    Nl(t[113]) == 113 && Nm(t[113]) == 113
  }

  lemma JpegStaysFixed()
    ensures StaysFixed(JPEG_ARITAB)
  {
    hide V, Nl, Nm;
    JpegEntries(113);
  }

  lemma {:induction false} Untouched(t: Table, ds: seq<Decision>, bins: set<nat>, b: nat)
    requires GoodDecisions(ds, BINS) && AllIn(ds, bins) && b < BINS
    ensures var stats := Run(t, State(FULL, StartStats()), ds).stats;
            && (b !in bins ==> stats[b] == StartStats()[b])
            && (b == FIXED_BIN && StaysFixed(t) ==> stats[b] == 113)
    decreases |ds|
  {
    if ds != [] {
      var before, d := ds[..|ds| - 1], ds[|ds| - 1];
      Untouched(t, before, bins, b);
      RunSnoc(t, State(FULL, StartStats()), before, d);
      assert ds == before + [d];
    }
  }

  // Clearing those areas brings all statistics back to the start, as nothing else was used.
  lemma ClearingIsEnough(t: Table, ds: seq<Decision>, bins: set<nat>)
    requires GoodDecisions(ds, BINS) && AllIn(ds, bins) && StaysFixed(t)
    ensures Cleared(Run(t, State(FULL, StartStats()), ds).stats, bins) == StartStats()
  {
    hide Run, AllIn, GoodDecisions, StaysFixed;
    var stats := Run(t, State(FULL, StartStats()), ds).stats;
    forall b | 0 <= b < BINS ensures Cleared(stats, bins)[b] == StartStats()[b] { Untouched(t, ds, bins, b); }
  }
}
