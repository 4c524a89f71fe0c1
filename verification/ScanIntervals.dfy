// Restart intervals written out: the segment with number j of a scan holds the MCUs from
// j times the interval on, as many as the interval says, coded as if they were the scan.
module ScanIntervals {
  import opened Intervals
  import opened ZigzagOrder
  import opened HuffTokens
  import opened HuffBlock
  import opened ProgDc
  import A = ArithBinarise
  import ArithScan
  import H = HuffSeqScan
  import Ac = ProgAcIntervals
  import Dc = ProgDcIntervals

  // The j-th n elements; fewer at the end.
  function Chunk<T>(xs: seq<T>, n: nat, j: nat): (c: seq<T>)
    ensures |c| <= n
  {
    if j * n >= |xs| then [] else if j * n + n >= |xs| then xs[j * n..] else xs[j * n..j * n + n]
  }

  lemma FirstChunk<T>(xs: seq<T>, n: nat)
    requires n > 0
    ensures Now(n, n, xs) == Chunk(xs, n, 0) && (Later(n, n, xs) == [] <==> |xs| <= n)
  {
  }

  lemma LaterChunk<T>(xs: seq<T>, n: nat, j: nat)
    requires n > 0 && j > 0
    ensures Chunk(Later(n, n, xs), n, j - 1) == Chunk(xs, n, j)
    ensures (j - 1) * n < |Later(n, n, xs)| <==> j * n < |xs|
  {
    assert (j - 1) * n + n == j * n;
    assert (j - 1) * n >= 0;
  }

  // ---- Arithmetic coding -----------------------------------------------------------------------------------------

  lemma ArithSplit(s: A.Scan, order: seq<nat>, mcus: seq<seq<seq<int>>>)
    requires A.GoodScan(s) && GoodOrder(order) && s.interval > 0
    requires ArithScan.ScanCodable(s, A.StartPred(s), order, s.interval, mcus)
    ensures var q, first, later := A.StartPred(s), Chunk(mcus, s.interval, 0), Later(s.interval, s.interval, mcus);
            && ArithScan.PieceCodable(s, q, order, first)
            && (later != [] ==> ArithScan.ScanCodable(s, q, order, s.interval, later))
            && ArithScan.ScanSegments(s, q, order, s.interval, mcus)
               == [ArithScan.PieceDecisions(s, q, order, first)]
                  + if later == [] then [] else ArithScan.ScanSegments(s, q, order, s.interval, later)
  {
    hide A.GoodScan, A.StartPred, ArithScan.PieceCodable, ArithScan.PieceDecisions, Now, Later, Chunk;
    FirstChunk(mcus, s.interval);
  }

  lemma {:induction false} ArithSegmentsAre(s: A.Scan, order: seq<nat>, mcus: seq<seq<seq<int>>>, j: nat)
    requires A.GoodScan(s) && GoodOrder(order) && s.interval > 0
    requires ArithScan.ScanCodable(s, A.StartPred(s), order, s.interval, mcus)
    ensures var segs := ArithScan.ScanSegments(s, A.StartPred(s), order, s.interval, mcus);
            && (j < |segs| <==> j == 0 || j * s.interval < |mcus|)
            && (j < |segs| ==>
                  ArithScan.PieceCodable(s, A.StartPred(s), order, Chunk(mcus, s.interval, j))
                  && segs[j] == ArithScan.PieceDecisions(s, A.StartPred(s), order, Chunk(mcus, s.interval, j)))
    decreases j
  {
    hide A.GoodScan, A.StartPred, ArithScan.PieceCodable, ArithScan.PieceDecisions, ArithScan.ScanCodable,
        ArithScan.ScanSegments, Now, Later, Chunk, GoodOrder;
    var later := Later(s.interval, s.interval, mcus);
    ArithSplit(s, order, mcus);
    FirstChunk(mcus, s.interval);
    if j > 0 {
      LaterChunk(mcus, s.interval, j);
      if later != [] { ArithSegmentsAre(s, order, later, j - 1); }
    }
  }

  // Without restart markers there is one segment.
  lemma ArithOneSegment(s: A.Scan, order: seq<nat>, mcus: seq<seq<seq<int>>>)
    requires A.GoodScan(s) && GoodOrder(order) && s.interval == 0
    requires ArithScan.ScanCodable(s, A.StartPred(s), order, 0, mcus)
    ensures ArithScan.ScanSegments(s, A.StartPred(s), order, 0, mcus)
         == [ArithScan.PieceDecisions(s, A.StartPred(s), order, mcus)]
  {
  }

  // ---- Progressive Huffman coding --------------------------------------------------------------------------------

  lemma AcSplit(s: Ac.AcScan, blocks: seq<seq<int>>)
    requires Ac.GoodAcScan(s) && Ac.Blocks(blocks) && Ac.AcFits(s, blocks) && s.interval > 0
    ensures var first, later := Chunk(blocks, s.interval, 0), Later(s.interval, s.interval, blocks);
            && Ac.Blocks(first) && Ac.AcFits(s, first) && Ac.Blocks(later) && Ac.AcFits(s, later)
            && Ac.AcSegs(s, blocks)
               == [Ac.PieceTokens(s, first, 0, [])] + if later == [] then [] else Ac.AcSegs(s, later)
  {
    hide Ac.GoodAcScan, Ac.PieceTokens, Ac.AcFits, Ac.Blocks, Now, Later, Chunk;
    Ac.FitsParts(s, s.interval, blocks);
    FirstChunk(blocks, s.interval);
    NothingAhead();
  }

  lemma {:induction false} AcSegmentsAre(s: Ac.AcScan, blocks: seq<seq<int>>, j: nat)
    requires Ac.GoodAcScan(s) && Ac.Blocks(blocks) && Ac.AcFits(s, blocks) && s.interval > 0
    ensures var segs := Ac.AcSegs(s, blocks);
            && (j < |segs| <==> j == 0 || j * s.interval < |blocks|)
            && (j < |segs| ==>
                  Ac.Blocks(Chunk(blocks, s.interval, j)) && Ac.AcFits(s, Chunk(blocks, s.interval, j))
                  && segs[j] == Ac.PieceTokens(s, Chunk(blocks, s.interval, j), 0, []))
    decreases j
  {
    hide Ac.GoodAcScan, Ac.PieceTokens, Ac.AcFits, Ac.Blocks, Ac.AcSegs, Now, Later, Chunk;
    AcSplit(s, blocks);
    var later := Later(s.interval, s.interval, blocks);
    FirstChunk(blocks, s.interval);
    if j > 0 {
      LaterChunk(blocks, s.interval, j);
      if later != [] { AcSegmentsAre(s, later, j - 1); }
    }
  }

  lemma NothingAhead()
    ensures forall toks: seq<Token> :: [] + toks == toks
  {
  }

  lemma DcSplit(s: Dc.DcScan, mcus: seq<seq<Unit>>)
    requires Dc.McusOf(s, mcus) && Dc.DcScanOk(s, mcus) && s.interval > 0
    ensures var first, later := Chunk(mcus, s.interval, 0), Later(s.interval, s.interval, mcus);
            && Dc.McusOf(s, first) && Dc.PieceFits(s, Dc.ZeroLast(s), first)
            && Dc.McusOf(s, later) && (later != [] ==> Dc.DcScanOk(s, later))
            && Dc.DcSegs(s, mcus)
               == [Dc.PieceTokens(s, Dc.ZeroLast(s), first)] + if later == [] then [] else Dc.DcSegs(s, later)
  {
    hide Dc.McusOf, Dc.PieceTokens, Dc.PieceFits, Now, Later, Chunk;
    Dc.McuParts(s, s.interval, mcus);
    FirstChunk(mcus, s.interval);
    NothingAhead();
  }

  lemma {:induction false} DcSegmentsAre(s: Dc.DcScan, mcus: seq<seq<Unit>>, j: nat)
    requires Dc.McusOf(s, mcus) && Dc.DcScanOk(s, mcus) && s.interval > 0
    ensures var segs := Dc.DcSegs(s, mcus);
            && (j < |segs| <==> j == 0 || j * s.interval < |mcus|)
            && (j < |segs| ==>
                  Dc.McusOf(s, Chunk(mcus, s.interval, j))
                  && Dc.PieceFits(s, Dc.ZeroLast(s), Chunk(mcus, s.interval, j))
                  && segs[j] == Dc.PieceTokens(s, Dc.ZeroLast(s), Chunk(mcus, s.interval, j)))
    decreases j
  {
    hide Dc.McusOf, Dc.PieceTokens, Dc.PieceFits, Dc.DcScanOk, Dc.DcSegs, Now, Later, Chunk;
    DcSplit(s, mcus);
    var later := Later(s.interval, s.interval, mcus);
    FirstChunk(mcus, s.interval);
    if j > 0 {
      LaterChunk(mcus, s.interval, j);
      if later != [] { DcSegmentsAre(s, later, j - 1); }
    }
  }

  // ---- Sequential Huffman coding ---------------------------------------------------------------------------------

  // The same scan without restart markers.
  function Whole(s: H.Scan): (r: H.Scan) {
    s.(interval := 0)
  }

  lemma {:induction false} McuAsWhole(s: H.Scan, last: seq<int>, mcu: seq<seq<int>>, i: nat)
    requires H.GoodScan(s) && H.GoodMcu(s, mcu) && |last| == |s.comps|
    ensures H.GoodScan(Whole(s)) && H.GoodMcu(Whole(s), mcu)
    ensures H.McuInRange(Whole(s), last, mcu, i) <==> H.McuInRange(s, last, mcu, i)
    ensures H.McuInRange(s, last, mcu, i) ==> H.McuTokens(Whole(s), last, mcu, i) == H.McuTokens(s, last, mcu, i)
    ensures H.LastAfter(Whole(s), last, mcu, i) == H.LastAfter(s, last, mcu, i)
    decreases |mcu| - i
  {
    hide InRange, BlockTokens;
    if i < |mcu| {
      McuAsWhole(s, last[s.membership[i] := mcu[i][0]], mcu, i + 1);
    }
  }

  lemma ZeroPredictions(s: H.Scan, last: seq<int>)
    requires |last| == |s.comps| && s.interval > 0
    ensures H.Predictions(s, last, 0) == H.ZeroDc(s)
    ensures forall toGo :: toGo > 0 ==> H.Predictions(s, last, toGo) == last
  {
  }

  // A restart marker comes before the next MCU.
  lemma HuffDue(s: H.Scan, last: seq<int>, cur: seq<Token>, mcus: seq<seq<seq<int>>>)
    requires H.GoodScan(s) && H.GoodMcus(s, mcus) && |last| == |s.comps| && s.interval > 0 && mcus != []
    requires H.ScanInRange(s, last, 0, mcus)
    ensures H.ScanInRange(s, H.ZeroDc(s), s.interval, mcus)
    ensures H.Segments(s, last, 0, cur, mcus) == [cur] + H.Segments(s, H.ZeroDc(s), s.interval, [], mcus)
  {
    hide H.McuInRange, H.McuTokens, H.LastAfter, H.GoodMcu, H.Predictions, H.ZeroDc;
    ZeroPredictions(s, last);
    ZeroPredictions(s, H.ZeroDc(s));
    NothingAhead();
  }

  // None does.
  lemma HuffNotDue(s: H.Scan, last: seq<int>, toGo: nat, cur: seq<Token>, mcus: seq<seq<seq<int>>>)
    requires H.GoodScan(s) && H.GoodMcus(s, mcus) && |last| == |s.comps| && s.interval > 0 && mcus != [] && toGo > 0
    requires H.ScanInRange(s, last, toGo, mcus)
    ensures H.GoodMcus(s, mcus[1..]) && H.GoodMcu(s, mcus[0]) && H.McuInRange(s, last, mcus[0], 0)
    ensures var toks, next := H.McuTokens(s, last, mcus[0], 0), H.LastAfter(s, last, mcus[0], 0);
            && H.ScanInRange(s, next, toGo - 1, mcus[1..])
            && H.Segments(s, last, toGo, cur, mcus) == H.Segments(s, next, toGo - 1, cur + toks, mcus[1..])
  {
    hide H.McuInRange, H.McuTokens, H.LastAfter, H.GoodMcu, H.Predictions;
    ZeroPredictions(s, last);
  }

  lemma WholeOnce(s: H.Scan, last: seq<int>, mcus: seq<seq<seq<int>>>)
    requires H.GoodScan(s) && mcus != [] && H.GoodMcu(s, mcus[0]) && |last| == |s.comps|
    requires H.McuInRange(s, last, mcus[0], 0) && H.GoodScan(Whole(s)) && H.GoodMcus(Whole(s), mcus[1..])
    requires H.ScanInRange(Whole(s), H.LastAfter(s, last, mcus[0], 0), 0, mcus[1..])
    ensures H.GoodMcus(Whole(s), mcus) && H.ScanInRange(Whole(s), last, 0, mcus)
    ensures H.ScanTokens(Whole(s), last, 0, mcus)
         == H.McuTokens(s, last, mcus[0], 0)
            + H.ScanTokens(Whole(s), H.LastAfter(s, last, mcus[0], 0), 0, mcus[1..])
  {
    hide H.McuInRange, H.McuTokens, H.LastAfter, H.GoodMcu, H.Predictions;
    McuAsWhole(s, last, mcus[0], 0);
    WholePredictions(s, last);
  }

  lemma WholePredictions(s: H.Scan, last: seq<int>)
    requires |last| == |s.comps|
    ensures H.Predictions(Whole(s), last, 0) == last && H.ToGoAfter(Whole(s), 0) == 0
  {
  }

  // What is left of the interval at hand, and the segments behind it.
  lemma {:induction false} HuffSegmentsSplit(s: H.Scan, last: seq<int>, toGo: nat, cur: seq<Token>,
      mcus: seq<seq<seq<int>>>)
    requires H.GoodScan(s) && H.GoodMcus(s, mcus) && |last| == |s.comps| && H.ScanInRange(s, last, toGo, mcus)
    requires s.interval > 0
    ensures var now, later := Now(s.interval, toGo, mcus), Later(s.interval, toGo, mcus);
            && H.GoodScan(Whole(s)) && H.GoodMcus(Whole(s), now) && H.ScanInRange(Whole(s), last, 0, now)
            && H.GoodMcus(s, later) && (later != [] ==> H.ScanInRange(s, H.ZeroDc(s), s.interval, later))
            && H.Segments(s, last, toGo, cur, mcus)
               == [cur + H.ScanTokens(Whole(s), last, 0, now)]
                  + if later == [] then [] else H.Segments(s, H.ZeroDc(s), s.interval, [], later)
    decreases |mcus|
  {
    if mcus == [] {
      assert cur + [] == cur;
    } else if toGo == 0 {
      DueMeans(s.interval, toGo, mcus);
      HuffDue(s, last, cur, mcus);
      assert cur + [] == cur;
    } else {
      hide H.McuInRange, H.McuTokens, H.LastAfter, H.GoodMcu, H.GoodMcus, H.GoodScan, H.ScanInRange, H.ScanTokens,
          H.Segments, Now, Later;
      NextMcu(s.interval, toGo, mcus);
      HuffNotDue(s, last, toGo, cur, mcus);
      var toks, next := H.McuTokens(s, last, mcus[0], 0), H.LastAfter(s, last, mcus[0], 0);
      HuffSegmentsSplit(s, next, toGo - 1, cur + toks, mcus[1..]);
      var now := Now(s.interval, toGo, mcus);
      WholeOnce(s, last, now);
      assert (cur + toks) + H.ScanTokens(Whole(s), next, 0, now[1..])
          == cur + (toks + H.ScanTokens(Whole(s), next, 0, now[1..]));
    }
  }

  lemma {:induction false} HuffSegmentsAre(s: H.Scan, mcus: seq<seq<seq<int>>>, j: nat)
    requires H.GoodScan(s) && H.GoodMcus(s, mcus) && s.interval > 0
    requires H.ScanInRange(s, H.ZeroDc(s), s.interval, mcus)
    ensures var segs := H.Segments(s, H.ZeroDc(s), s.interval, [], mcus);
            && (j < |segs| <==> j == 0 || j * s.interval < |mcus|)
            && (j < |segs| ==>
                  H.GoodScan(Whole(s)) && H.GoodMcus(Whole(s), Chunk(mcus, s.interval, j))
                  && H.ScanInRange(Whole(s), H.ZeroDc(s), 0, Chunk(mcus, s.interval, j))
                  && segs[j] == H.ScanTokens(Whole(s), H.ZeroDc(s), 0, Chunk(mcus, s.interval, j)))
    decreases j
  {
    hide H.GoodMcus, H.ScanInRange, H.ScanTokens, H.Segments, Now, Later, Chunk, H.GoodScan;
    HuffSegmentsSplit(s, H.ZeroDc(s), s.interval, [], mcus);
    var later := Later(s.interval, s.interval, mcus);
    FirstChunk(mcus, s.interval);
    NothingAhead();
    if j > 0 {
      LaterChunk(mcus, s.interval, j);
      if later != [] { HuffSegmentsAre(s, later, j - 1); }
    }
  }
}
