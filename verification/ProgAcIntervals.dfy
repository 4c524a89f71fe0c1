// The symbols of a progressive AC scan, interval by interval.
module ProgAcIntervals {
  import opened Intervals
  import opened ZigzagOrder
  import opened HuffTokens
  import opened HuffSegments
  import opened ProgTokens
  import opened ProgBlocks
  import opened ProgIntervals
  import opened ProgAcRefineDecoder
  import opened P = ProgEncoder

  // The band of one component that a scan codes down to bit al, with the AC table tbl; a
  // refinement scan when the coefficients are known down to bit al + 1. There are
  // interval blocks between two restart markers, or no markers when it is zero.
  datatype AcScan = AcScan(order: seq<nat>, ss: nat, se: nat, al: nat, refine: bool, tbl: nat, interval: nat)

  predicate FirstBand(order: seq<nat>, ss: nat, se: nat) {
    1 <= ss <= se < 64 && se + 16 < |order| && forall i :: 0 <= i < |order| ==> order[i] < 64
  }

  predicate GoodAcScan(s: AcScan) {
    && ScanOrder(s.order, 63) && 1 <= s.ss <= s.se < 64 && s.tbl < NUM_HUFF_TBLS
    && s.al + (if s.refine then 1 else 0) <= MAX_AL
    && GoodBand(s.order, s.ss, s.se) && FirstBand(s.order, s.ss, s.se) && GoodRefineBand(s.order, s.ss, s.se, s.al)
  }

  lemma TableInRange(s: AcScan)
    requires GoodAcScan(s)
    ensures s.tbl < NUM_HUFF_TBLS
  {
  }

  predicate Blocks(blocks: seq<seq<int>>) {
    forall i :: 0 <= i < |blocks| ==> |blocks[i]| == 64
  }

  function Width(s: AcScan): (n: nat)
    requires GoodAcScan(s)
    ensures n > 0
  {
    s.se - s.ss + 1
  }

  // The bands of the blocks after the point transform.
  function CoefsOf(s: AcScan, block: seq<int>): (t: seq<int>)
    requires GoodAcScan(s) && |block| == 64
    ensures |t| == Width(s)
  {
    TruncatedBand(SubBand(s.order, s.ss, s.se, block), s.al)
  }

  function MagsOf(s: AcScan, block: seq<int>): (m: seq<Mag>)
    requires GoodAcScan(s) && |block| == 64
    ensures |m| == Width(s)
  {
    MagBand(SubBand(s.order, s.ss, s.se, block), s.al)
  }

  function FirstBands(s: AcScan, blocks: seq<seq<int>>): (ts: seq<seq<int>>)
    requires GoodAcScan(s) && Blocks(blocks)
    ensures |ts| == |blocks| && forall i :: 0 <= i < |ts| ==> ts[i] == CoefsOf(s, blocks[i])
  {
    seq(|blocks|, i requires 0 <= i < |blocks| => CoefsOf(s, blocks[i]))
  }

  function RefineBands(s: AcScan, blocks: seq<seq<int>>): (ms: seq<seq<Mag>>)
    requires GoodAcScan(s) && Blocks(blocks)
    ensures |ms| == |blocks| && BandsOf(ms, Width(s)) && forall i :: 0 <= i < |ms| ==> ms[i] == MagsOf(s, blocks[i])
  {
    seq(|blocks|, i requires 0 <= i < |blocks| => MagsOf(s, blocks[i]))
  }

  // Only a first scan can meet a coefficient that is too large.
  predicate BlockFits(s: AcScan, block: seq<int>)
    requires GoodAcScan(s) && |block| == 64
  {
    s.refine || BandInRange(CoefsOf(s, block))
  }

  predicate AcFits(s: AcScan, blocks: seq<seq<int>>)
    requires GoodAcScan(s) && Blocks(blocks)
  {
    forall i :: 0 <= i < |blocks| ==> BlockFits(s, blocks[i])
  }

  lemma FitsBands(s: AcScan, blocks: seq<seq<int>>)
    requires GoodAcScan(s) && Blocks(blocks) && AcFits(s, blocks) && !s.refine
    ensures BandsInRange(FirstBands(s, blocks), Width(s))
  {
    hide BandInRange;
    var ts := FirstBands(s, blocks);
    forall i | 0 <= i < |ts| ensures |ts[i]| == Width(s) && BandInRange(ts[i]) {
      assert BlockFits(s, blocks[i]);
    }
  }

  // ---- One interval ------------------------------------------------------------------------------------------------

  // Blocks waiting to be counted, and their correction bits.
  predicate Waits(s: AcScan, run: nat, bits: seq<bool>) {
    run < MAX_EOBRUN && (run == 0 ==> bits == []) && (!s.refine ==> bits == [])
  }

  function StepAc(s: AcScan, block: seq<int>, run: nat, bits: seq<bool>): (st: RefineStep)
    requires GoodAcScan(s) && |block| == 64 && BlockFits(s, block) && Waits(s, run, bits)
    ensures TokensOk(st.toks) && Waits(s, st.run, st.bits)
  {
    if s.refine then StepRefine(s.tbl, MagsOf(s, block), run, bits)
    else
      var st := StepFirst(s.tbl, CoefsOf(s, block), run);
      RefineStep(st.toks, st.run, [])
  }

  // The blocks up to the end of an interval and the run that is left over there.
  function PieceTokens(s: AcScan, blocks: seq<seq<int>>, run: nat, bits: seq<bool>): (toks: seq<Token>)
    requires GoodAcScan(s) && Blocks(blocks) && AcFits(s, blocks) && Waits(s, run, bits)
    ensures TokensOk(toks)
  {
    if s.refine then ScanRefine(s.tbl, RefineBands(s, blocks), Width(s), run, bits)
    else
      FitsBands(s, blocks);
      ScanFirst(s.tbl, FirstBands(s, blocks), Width(s), run)
  }

  lemma PieceStep(s: AcScan, blocks: seq<seq<int>>, run: nat, bits: seq<bool>)
    requires GoodAcScan(s) && Blocks(blocks) && AcFits(s, blocks) && Waits(s, run, bits) && blocks != []
    ensures var st := StepAc(s, blocks[0], run, bits);
            && Blocks(blocks[1..]) && AcFits(s, blocks[1..])
            && PieceTokens(s, blocks, run, bits) == st.toks + PieceTokens(s, blocks[1..], st.run, st.bits)
  {
    hide GoodAcScan, CoefsOf, MagsOf, StepFirst, StepRefine, BandInRange;
    if s.refine {
      assert RefineBands(s, blocks)[1..] == RefineBands(s, blocks[1..]);
    } else {
      assert FirstBands(s, blocks)[1..] == FirstBands(s, blocks[1..]);
      FitsBands(s, blocks);
    }
  }

  lemma PieceEnd(s: AcScan, run: nat, bits: seq<bool>)
    requires GoodAcScan(s) && Waits(s, run, bits)
    ensures PieceTokens(s, [], run, bits) == RunTokens(s.tbl, run, bits)
  {
    if !s.refine { assert EobTokens(s.tbl, run) + [] == EobTokens(s.tbl, run); }
  }

  // ---- All intervals -----------------------------------------------------------------------------------------------

  lemma FitsParts(s: AcScan, toGo: nat, blocks: seq<seq<int>>)
    requires GoodAcScan(s) && Blocks(blocks)
    ensures var now, later := Now(s.interval, toGo, blocks), Later(s.interval, toGo, blocks);
            Blocks(now) && Blocks(later) && (AcFits(s, blocks) <==> AcFits(s, now) && AcFits(s, later))
  {
    hide GoodAcScan, BlockFits;
    var now, later := Now(s.interval, toGo, blocks), Later(s.interval, toGo, blocks);
    assert forall i :: 0 <= i < |later| ==> later[i] == blocks[|now| + i];
    if AcFits(s, now) && AcFits(s, later) {
      forall i | 0 <= i < |blocks| ensures BlockFits(s, blocks[i]) {
        if i < |now| { assert blocks[i] == now[i]; } else { assert blocks[i] == later[i - |now|]; }
      }
    }
  }

  // The symbols of each interval. The run that is left over at the end of an interval
  // is written before the marker.
  function AcSegs(s: AcScan, blocks: seq<seq<int>>): (segs: seq<seq<Token>>)
    requires GoodAcScan(s) && Blocks(blocks) && AcFits(s, blocks)
    ensures segs != []
    decreases |blocks|
  {
    AcSegsFrom(s, s.interval, 0, [], [], blocks)
  }

  // From a point within an interval on, whose symbols so far are cur.
  function AcSegsFrom(s: AcScan, toGo: nat, run: nat, bits: seq<bool>, cur: seq<Token>,
      blocks: seq<seq<int>>): (segs: seq<seq<Token>>)
    requires GoodAcScan(s) && Blocks(blocks) && AcFits(s, blocks) && Waits(s, run, bits)
    ensures segs != []
    decreases |blocks|, if IsDue(s.interval, toGo) then 2 else 1
  {
    FitsParts(s, toGo, blocks);
    var later := Later(s.interval, toGo, blocks);
    [cur + PieceTokens(s, Now(s.interval, toGo, blocks), run, bits)]
    + if later == [] then [] else AcSegsFrom(s, s.interval, 0, [], [], later)
  }

  lemma SegsDue(s: AcScan, toGo: nat, run: nat, bits: seq<bool>, cur: seq<Token>, blocks: seq<seq<int>>)
    requires GoodAcScan(s) && Blocks(blocks) && AcFits(s, blocks) && Waits(s, run, bits) && IsDue(s.interval, toGo)
        && blocks != []
    ensures AcSegsFrom(s, toGo, run, bits, cur, blocks) == [cur + RunTokens(s.tbl, run, bits)] + AcSegs(s, blocks)
  {
    hide GoodAcScan, PieceTokens, RunTokens, AcFits;
    DueMeans(s.interval, toGo, blocks);
    FitsParts(s, toGo, blocks);
    PieceEnd(s, run, bits);
  }

  lemma SegsStep(s: AcScan, toGo: nat, run: nat, bits: seq<bool>, cur: seq<Token>, blocks: seq<seq<int>>)
    requires GoodAcScan(s) && Blocks(blocks) && AcFits(s, blocks) && Waits(s, run, bits) && !IsDue(s.interval, toGo)
        && blocks != []
    ensures var st := StepAc(s, blocks[0], run, bits);
            && Blocks(blocks[1..]) && AcFits(s, blocks[1..])
            && AcSegsFrom(s, toGo, run, bits, cur, blocks)
               == AcSegsFrom(s, ToGoNext(s.interval, toGo), st.run, st.bits, cur + st.toks, blocks[1..])
  {
    hide GoodAcScan, PieceTokens, StepAc, AcFits, BlockFits;
    var now := Now(s.interval, toGo, blocks);
    NextMcu(s.interval, toGo, blocks);
    FitsParts(s, toGo, blocks);
    OneFits(s, blocks);
    FitsParts(s, ToGoNext(s.interval, toGo), blocks[1..]);
    PieceStep(s, now, run, bits);
    var st := StepAc(s, blocks[0], run, bits);
    var rest := PieceTokens(s, now[1..], st.run, st.bits);
    assert cur + (st.toks + rest) == (cur + st.toks) + rest;
  }

  lemma OneFits(s: AcScan, blocks: seq<seq<int>>)
    requires GoodAcScan(s) && Blocks(blocks) && blocks != []
    ensures |blocks[0]| == 64 && Blocks(blocks[1..])
    ensures AcFits(s, blocks) <==> BlockFits(s, blocks[0]) && AcFits(s, blocks[1..])
  {
    hide GoodAcScan, BlockFits;
    if BlockFits(s, blocks[0]) && AcFits(s, blocks[1..]) {
      forall i | 0 <= i < |blocks| ensures BlockFits(s, blocks[i]) {
        if i > 0 { assert blocks[i] == blocks[1..][i - 1]; }
      }
    }
  }

  lemma SegsEnd(s: AcScan, toGo: nat, run: nat, bits: seq<bool>, cur: seq<Token>)
    requires GoodAcScan(s) && Waits(s, run, bits)
    ensures AcSegsFrom(s, toGo, run, bits, cur, []) == [cur + RunTokens(s.tbl, run, bits)]
  {
    hide GoodAcScan, PieceTokens, RunTokens;
    PieceEnd(s, run, bits);
  }

  // What has been emitted of the current interval only stands in front.
  lemma SegsCur(s: AcScan, toGo: nat, run: nat, bits: seq<bool>, cur: seq<Token>, blocks: seq<seq<int>>)
    requires GoodAcScan(s) && Blocks(blocks) && AcFits(s, blocks) && Waits(s, run, bits)
    ensures AllOf(AcSegsFrom(s, toGo, run, bits, cur, blocks)) == cur
        + AllOf(AcSegsFrom(s, toGo, run, bits, [], blocks))
  {
    hide GoodAcScan, PieceTokens, AcFits, AllOf;
    FitsParts(s, toGo, blocks);
    var first := PieceTokens(s, Now(s.interval, toGo, blocks), run, bits);
    var a, b := AcSegsFrom(s, toGo, run, bits, cur, blocks), AcSegsFrom(s, toGo, run, bits, [], blocks);
    AllOfCons(a[0], a[1..]);
    AllOfCons(b[0], b[1..]);
    assert a == [a[0]] + a[1..] && b == [b[0]] + b[1..] && a[1..] == b[1..];
    assert [] + first == first;
    assert (cur + first) + AllOf(a[1..]) == cur + (first + AllOf(a[1..]));
  }

  lemma {:induction false} SegsOk(s: AcScan, toGo: nat, run: nat, bits: seq<bool>, cur: seq<Token>,
      blocks: seq<seq<int>>)
    requires GoodAcScan(s) && Blocks(blocks) && AcFits(s, blocks) && Waits(s, run, bits) && TokensOk(cur)
    ensures TokensOk(AllOf(AcSegsFrom(s, toGo, run, bits, cur, blocks)))
    decreases |blocks|, if IsDue(s.interval, toGo) then 2 else 1
  {
    hide GoodAcScan, PieceTokens, AcFits, AllOf, TokenOk;
    FitsParts(s, toGo, blocks);
    var later := Later(s.interval, toGo, blocks);
    var first := cur + PieceTokens(s, Now(s.interval, toGo, blocks), run, bits);
    if later == [] {
      AllOfCons(first, []);
      NoSegments();
      assert [first] + [] == [first];
    } else {
      SegsOk(s, s.interval, 0, [], [], later);
      AllOfCons(first, AcSegsFrom(s, s.interval, 0, [], [], later));
    }
  }

  // All symbols of the scan.
  function AcScanTokens(s: AcScan, blocks: seq<seq<int>>): (toks: seq<Token>)
    requires GoodAcScan(s) && Blocks(blocks) && AcFits(s, blocks)
    ensures TokensOk(toks)
  {
    SegsOk(s, s.interval, 0, [], [], blocks);
    AllOf(AcSegs(s, blocks))
  }
}
