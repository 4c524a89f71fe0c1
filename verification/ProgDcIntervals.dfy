// The symbols of a progressive DC scan, interval by interval.
module ProgDcIntervals {
  import opened Intervals
  import opened HuffTokens
  import opened HuffBlock
  import opened HuffSegments
  import opened ProgTokens
  import opened ProgBlocks
  import opened ProgDc
  import opened ProgIntervals

  // The DC tables of the components of the scan, the bit it goes down to, and the number
  // of MCUs between restart markers.
  datatype DcScan = DcScan(tbls: seq<nat>, al: nat, refine: bool, interval: nat)

  predicate GoodDcScan(s: DcScan) {
    s.tbls != [] && s.al + (if s.refine then 1 else 0) <= MAX_AL
        && forall i :: 0 <= i < |s.tbls| ==> s.tbls[i] < NUM_HUFF_TBLS
  }

  predicate McusOf(s: DcScan, mcus: seq<seq<Unit>>) {
    GoodDcScan(s) && forall i :: 0 <= i < |mcus| ==> GoodUnits(s.tbls, mcus[i])
  }

  // All units of the scan in order.
  function Flat(mcus: seq<seq<Unit>>): seq<Unit> {
    if mcus == [] then [] else mcus[0] + Flat(mcus[1..])
  }

  lemma {:induction false} FlatGood(s: DcScan, mcus: seq<seq<Unit>>)
    requires McusOf(s, mcus)
    ensures GoodUnits(s.tbls, Flat(mcus))
  {
    if mcus != [] {
      assert forall i :: 0 <= i < |mcus| - 1 ==> mcus[1..][i] == mcus[i + 1];
      FlatGood(s, mcus[1..]);
    }
  }

  // ---- The symbols, MCU by MCU -------------------------------------------------------------------------------------

  lemma {:induction false} FitsSplit(tbls: seq<nat>, last: seq<int>, a: seq<Unit>, b: seq<Unit>, al: nat)
    requires GoodUnits(tbls, a) && GoodUnits(tbls, b) && |last| == |tbls|
    ensures GoodUnits(tbls, a + b)
    ensures DcFits(tbls, last, a + b, al) <==> DcFits(tbls, last, a, al) && DcFits(tbls, LastDc(last, a, al), b, al)
    ensures DcFits(tbls, last, a + b, al) ==>
              DcScanTokens(tbls, last, a + b, al) == DcScanTokens(tbls, last, a, al)
                  + DcScanTokens(tbls, LastDc(last, a, al), b, al)
    decreases |a|
  {
    hide Floored, DcInRange, DcTokens, DcFits, DcScanTokens, LastDc;
    OneUnit(tbls, last, a, al);
    if a == [] {
      assert a + b == b;
    } else {
      var u, v := a[0], Floored(a[0].dc, al);
      assert (a + b)[0] == u && (a + b)[1..] == a[1..] + b;
      OneUnit(tbls, last, a + b, al);
      FitsSplit(tbls, last[u.ci := v], a[1..], b, al);
    }
  }

  // The definitions, one block at a time.
  lemma OneUnit(tbls: seq<nat>, last: seq<int>, a: seq<Unit>, al: nat)
    requires GoodUnits(tbls, a) && |last| == |tbls|
    ensures a == [] ==>
        DcFits(tbls, last, a, al) && DcScanTokens(tbls, last, a, al) == [] && LastDc(last, a, al) == last
    ensures a != [] ==>
              var u, v := a[0], Floored(a[0].dc, al);
              var next := last[u.ci := v];
              && GoodUnits(tbls, a[1..]) && LastDc(last, a, al) == LastDc(next, a[1..], al)
              && (DcFits(tbls, last, a, al) <==> DcInRange(v - last[u.ci]) && DcFits(tbls, next, a[1..], al))
              && (DcFits(tbls, last, a, al) ==>
                    DcScanTokens(tbls, last, a, al) == DcTokens(tbls[u.ci], v - last[u.ci])
                        + DcScanTokens(tbls, next, a[1..], al))
  {
    hide Floored, DcInRange, DcTokens;
  }

  predicate DcScanFits(s: DcScan, last: seq<int>, mcus: seq<seq<Unit>>)
    requires McusOf(s, mcus) && |last| == |s.tbls|
    decreases |mcus|
  {
    mcus == [] || (DcFits(s.tbls, last, mcus[0], s.al) && DcScanFits(s, LastDc(last, mcus[0], s.al), mcus[1..]))
  }

  function FirstTokens(s: DcScan, last: seq<int>, mcus: seq<seq<Unit>>): (toks: seq<Token>)
    requires McusOf(s, mcus) && |last| == |s.tbls| && DcScanFits(s, last, mcus)
    ensures TokensOk(toks)
    decreases |mcus|
  {
    if mcus == [] then []
    else DcScanTokens(s.tbls, last, mcus[0], s.al) + FirstTokens(s, LastDc(last, mcus[0], s.al), mcus[1..])
  }

  // The predictions run through the MCUs as if the scan were one list of blocks.
  lemma {:induction false} OneList(s: DcScan, last: seq<int>, mcus: seq<seq<Unit>>)
    requires McusOf(s, mcus) && |last| == |s.tbls|
    ensures GoodUnits(s.tbls, Flat(mcus)) && (DcScanFits(s, last, mcus) <==> DcFits(s.tbls, last, Flat(mcus), s.al))
    ensures DcScanFits(s, last, mcus) ==> FirstTokens(s, last, mcus) == DcScanTokens(s.tbls, last, Flat(mcus), s.al)
    decreases |mcus|
  {
    hide DcFits, DcScanTokens;
    FlatGood(s, mcus);
    if mcus == [] {
      EmptyFits(s.tbls, last, s.al);
    } else {
      FlatGood(s, mcus[1..]);
      OneList(s, LastDc(last, mcus[0], s.al), mcus[1..]);
      FitsSplit(s.tbls, last, mcus[0], Flat(mcus[1..]), s.al);
    }
  }

  lemma EmptyFits(tbls: seq<nat>, last: seq<int>, al: nat)
    requires GoodUnits(tbls, []) && |last| == |tbls|
    ensures DcFits(tbls, last, [], al) && DcScanTokens(tbls, last, [], al) == []
  {
  }

  function ZeroLast(s: DcScan): (l: seq<int>)
    ensures |l| == |s.tbls|
  {
    seq(|s.tbls|, _ => 0)
  }

  function RefineBits(al: nat, mcus: seq<seq<Unit>>): (toks: seq<Token>)
    ensures TokensOk(toks) && forall i :: 0 <= i < |toks| ==> toks[i].Raw?
  {
    if mcus == [] then [] else RawBits(DcBits(mcus[0], al)) + RefineBits(al, mcus[1..])
  }

  // ---- One interval ------------------------------------------------------------------------------------------------

  // Only a first scan can meet a difference that is too large.
  predicate PieceFits(s: DcScan, last: seq<int>, mcus: seq<seq<Unit>>)
    requires McusOf(s, mcus) && |last| == |s.tbls|
  {
    s.refine || DcScanFits(s, last, mcus)
  }

  function PieceTokens(s: DcScan, last: seq<int>, mcus: seq<seq<Unit>>): (toks: seq<Token>)
    requires McusOf(s, mcus) && |last| == |s.tbls| && PieceFits(s, last, mcus)
    ensures TokensOk(toks)
  {
    if s.refine then RefineBits(s.al, mcus) else FirstTokens(s, last, mcus)
  }

  predicate McuFits(s: DcScan, last: seq<int>, units: seq<Unit>)
    requires GoodUnits(s.tbls, units) && |last| == |s.tbls|
  {
    s.refine || DcFits(s.tbls, last, units, s.al)
  }

  function McuTokens(s: DcScan, last: seq<int>, units: seq<Unit>): (toks: seq<Token>)
    requires GoodUnits(s.tbls, units) && |last| == |s.tbls| && McuFits(s, last, units)
    ensures TokensOk(toks)
  {
    if s.refine then RawBits(DcBits(units, s.al)) else DcScanTokens(s.tbls, last, units, s.al)
  }

  function LastAfter(s: DcScan, last: seq<int>, units: seq<Unit>): (l: seq<int>)
    requires GoodUnits(s.tbls, units) && |last| == |s.tbls|
    ensures |l| == |last|
  {
    if s.refine then last else LastDc(last, units, s.al)
  }

  lemma PieceStep(s: DcScan, last: seq<int>, mcus: seq<seq<Unit>>)
    requires McusOf(s, mcus) && |last| == |s.tbls| && mcus != []
    ensures McusOf(s, mcus[1..]) && GoodUnits(s.tbls, mcus[0])
    ensures var next := LastAfter(s, last, mcus[0]);
            && (PieceFits(s, last, mcus) <==> McuFits(s, last, mcus[0]) && PieceFits(s, next, mcus[1..]))
            && (PieceFits(s, last, mcus) ==>
                  PieceTokens(s, last, mcus) == McuTokens(s, last, mcus[0]) + PieceTokens(s, next, mcus[1..]))
  {
    hide DcFits, DcScanTokens, RawBits, DcBits;
  }

  lemma PieceEnd(s: DcScan, last: seq<int>)
    requires GoodDcScan(s) && |last| == |s.tbls|
    ensures PieceFits(s, last, []) && PieceTokens(s, last, []) == []
  {
  }

  // ---- All intervals -----------------------------------------------------------------------------------------------

  lemma McuParts(s: DcScan, toGo: nat, mcus: seq<seq<Unit>>)
    requires McusOf(s, mcus)
    ensures McusOf(s, Now(s.interval, toGo, mcus)) && McusOf(s, Later(s.interval, toGo, mcus))
  {
    hide GoodUnits;
  }

  // The predictions start from zero again in each interval.
  predicate SegsFit(s: DcScan, toGo: nat, last: seq<int>, mcus: seq<seq<Unit>>)
    requires McusOf(s, mcus) && |last| == |s.tbls|
    decreases |mcus|, if IsDue(s.interval, toGo) then 2 else 1
  {
    McuParts(s, toGo, mcus);
    var later := Later(s.interval, toGo, mcus);
    PieceFits(s, last, Now(s.interval, toGo, mcus)) && (later == [] || SegsFit(s, s.interval, ZeroLast(s), later))
  }

  function DcSegsFrom(s: DcScan, toGo: nat, last: seq<int>, cur: seq<Token>,
      mcus: seq<seq<Unit>>): (segs: seq<seq<Token>>)
    requires McusOf(s, mcus) && |last| == |s.tbls| && SegsFit(s, toGo, last, mcus)
    ensures segs != []
    decreases |mcus|, if IsDue(s.interval, toGo) then 2 else 1
  {
    McuParts(s, toGo, mcus);
    var later := Later(s.interval, toGo, mcus);
    [cur + PieceTokens(s, last, Now(s.interval, toGo, mcus))]
    + if later == [] then [] else DcSegsFrom(s, s.interval, ZeroLast(s), [], later)
  }

  // All coefficient differences of the scan are in range.
  predicate DcScanOk(s: DcScan, mcus: seq<seq<Unit>>)
    requires McusOf(s, mcus)
  {
    SegsFit(s, s.interval, ZeroLast(s), mcus)
  }

  function DcSegs(s: DcScan, mcus: seq<seq<Unit>>): (segs: seq<seq<Token>>)
    requires McusOf(s, mcus) && DcScanOk(s, mcus)
    ensures segs != []
  {
    DcSegsFrom(s, s.interval, ZeroLast(s), [], mcus)
  }

  lemma SegsDue(s: DcScan, toGo: nat, last: seq<int>, cur: seq<Token>, mcus: seq<seq<Unit>>)
    requires McusOf(s, mcus) && |last| == |s.tbls| && IsDue(s.interval, toGo) && mcus != []
    ensures SegsFit(s, toGo, last, mcus) <==> DcScanOk(s, mcus)
    ensures DcScanOk(s, mcus) ==> DcSegsFrom(s, toGo, last, cur, mcus) == [cur] + DcSegs(s, mcus)
  {
    hide PieceTokens, PieceFits;
    McuParts(s, toGo, mcus);
    DueMeans(s.interval, toGo, mcus);
    PieceEnd(s, last);
    assert cur + [] == cur;
  }

  lemma SegsStep(s: DcScan, toGo: nat, last: seq<int>, cur: seq<Token>, mcus: seq<seq<Unit>>)
    requires McusOf(s, mcus) && |last| == |s.tbls| && !IsDue(s.interval, toGo) && mcus != []
    ensures McusOf(s, mcus[1..]) && GoodUnits(s.tbls, mcus[0])
    ensures var next, toGo' := LastAfter(s, last, mcus[0]), ToGoNext(s.interval, toGo);
            && (SegsFit(s, toGo, last, mcus) <==> McuFits(s, last, mcus[0]) && SegsFit(s, toGo', next, mcus[1..]))
            && (SegsFit(s, toGo, last, mcus) ==>
                  DcSegsFrom(s, toGo, last, cur, mcus)
                      == DcSegsFrom(s, toGo', next, cur + McuTokens(s, last, mcus[0]), mcus[1..]))
  {
    hide PieceTokens, PieceFits, McuTokens, McuFits, LastAfter;
    var now, next := Now(s.interval, toGo, mcus), LastAfter(s, last, mcus[0]);
    NextMcu(s.interval, toGo, mcus);
    McuParts(s, toGo, mcus);
    PieceStep(s, last, now);
    assert McusOf(s, mcus[1..]);
    McuParts(s, ToGoNext(s.interval, toGo), mcus[1..]);
    if SegsFit(s, toGo, last, mcus) {
      var a, b := McuTokens(s, last, mcus[0]), PieceTokens(s, next, now[1..]);
      assert cur + (a + b) == (cur + a) + b;
    }
  }

  lemma SegsEnd(s: DcScan, toGo: nat, last: seq<int>, cur: seq<Token>)
    requires GoodDcScan(s) && |last| == |s.tbls|
    ensures SegsFit(s, toGo, last, []) && DcSegsFrom(s, toGo, last, cur, []) == [cur]
  {
    hide PieceTokens, PieceFits;
    PieceEnd(s, last);
    assert cur + [] == cur;
  }

  lemma SegsCur(s: DcScan, toGo: nat, last: seq<int>, cur: seq<Token>, mcus: seq<seq<Unit>>)
    requires McusOf(s, mcus) && |last| == |s.tbls| && SegsFit(s, toGo, last, mcus)
    ensures AllOf(DcSegsFrom(s, toGo, last, cur, mcus)) == cur + AllOf(DcSegsFrom(s, toGo, last, [], mcus))
  {
    hide PieceTokens, PieceFits, AllOf;
    McuParts(s, toGo, mcus);
    var first := PieceTokens(s, last, Now(s.interval, toGo, mcus));
    var a, b := DcSegsFrom(s, toGo, last, cur, mcus), DcSegsFrom(s, toGo, last, [], mcus);
    AllOfCons(a[0], a[1..]);
    AllOfCons(b[0], b[1..]);
    assert a == [a[0]] + a[1..] && b == [b[0]] + b[1..] && a[1..] == b[1..];
    assert [] + first == first;
    assert (cur + first) + AllOf(a[1..]) == cur + (first + AllOf(a[1..]));
  }

  lemma {:induction false} SegsOk(s: DcScan, toGo: nat, last: seq<int>, mcus: seq<seq<Unit>>)
    requires McusOf(s, mcus) && |last| == |s.tbls| && SegsFit(s, toGo, last, mcus)
    ensures TokensOk(AllOf(DcSegsFrom(s, toGo, last, [], mcus)))
    decreases |mcus|, if IsDue(s.interval, toGo) then 2 else 1
  {
    hide PieceTokens, PieceFits, AllOf, TokenOk;
    McuParts(s, toGo, mcus);
    var later := Later(s.interval, toGo, mcus);
    var first := [] + PieceTokens(s, last, Now(s.interval, toGo, mcus));
    if later == [] {
      AllOfCons(first, []);
      NoSegments();
      assert [first] + [] == [first];
    } else {
      SegsOk(s, s.interval, ZeroLast(s), later);
      AllOfCons(first, DcSegsFrom(s, s.interval, ZeroLast(s), [], later));
    }
  }

  // All symbols of the scan.
  function TokensOfDc(s: DcScan, mcus: seq<seq<Unit>>): (toks: seq<Token>)
    requires McusOf(s, mcus) && DcScanOk(s, mcus)
    ensures TokensOk(toks)
  {
    SegsOk(s, s.interval, ZeroLast(s), mcus);
    AllOf(DcSegs(s, mcus))
  }
}
