// A whole progressive DC scan of the encoder: statistics, tables and output, MCU by MCU.
module ProgDcScan {
  import opened Intervals
  import opened Bytes
  import opened HuffTree
  import opened HuffBitWriter
  import opened HuffTokens
  import opened HuffSegments
  import opened HuffOptimise
  import opened ProgTokens
  import opened ProgDc
  import opened ProgAcEncoder
  import opened ProgGather
  import opened ProgIntervals
  import opened ProgDcIntervals
  import opened P = ProgEncoder
  import A = ProgAcScan

  // ---- One MCU -----------------------------------------------------------------------------------------------------

  ghost predicate BetweenMcus(e: P.ProgEncoder, s: DcScan, last: seq<int>)
    reads e, e.w, e.dcCounts, e.acCounts
  {
    && e.Valid() && e.ss == 0 && e.interval == s.interval && e.eobrun == 0 && e.be == 0
    && e.lastDc == last && |last| == |s.tbls|
  }

  ghost predicate McuPasses(e: P.ProgEncoder, s: DcScan, last: seq<int>, units: seq<Unit>)
    requires GoodUnits(s.tbls, units) && |last| == |s.tbls|
  {
    McuFits(s, last, units) && e.Passes(McuTokens(s, last, units))
  }

  method EncodeUnits(e: P.ProgEncoder, s: DcScan, units: seq<Unit>, ghost last: seq<int>) returns (ok: bool)
    requires BetweenMcus(e, s, last) && GoodUnits(s.tbls, units)
    modifies e`log, e`lastDc, e.w, e.dcCounts, e.acCounts
    ensures |last| == |s.tbls|
    ensures ok <==> McuPasses(e, s, last, units)
    ensures ok ==> BetweenMcus(e, s, LastAfter(s, last, units)) && e.log == old(e.log) + McuTokens(s, last, units)
  {
    hide e.Sound, e.Passes, DcFits, DcScanTokens, RawBits, DcBits, LastDc, GoodTables;
    if s.refine {
      e.SoundBuffer();
      RawPasses(e, RawBits(DcBits(units, s.al)));
      EncodeDcRefine(e, units, s.al);
      ok := true;
    } else {
      ok := EncodeDcFirst(e, s.tbls, units, s.al);
    }
  }

  lemma NoRun(e: P.ProgEncoder, none: seq<bool>)
    requires GoodTables(e.tables) && e.acTbl < NUM_HUFF_TBLS && none == []
    ensures RunTokens(e.acTbl, 0, none) == [] && e.Passes([])
  {
    NoRunPasses(e);
    EmptyBuffer(e.acTbl, 0, none);
  }

  // encode_mcu_DC_first and encode_mcu_DC_refine: a restart marker if one is due, the
  // blocks, and the counters of the restart interval.
  method EncodeMcu(e: P.ProgEncoder, s: DcScan, units: seq<Unit>, ghost last: seq<int>) returns (ok: bool)
    requires BetweenMcus(e, s, last) && e.Numbered(0) && GoodUnits(s.tbls, units)
    modifies e, e.w, e.dcCounts, e.acCounts
    ensures |last| == |s.tbls|
    ensures var due := IsDue(s.interval, old(e.restartsToGo));
            var last0 := if due then ZeroLast(s) else last;
            && (ok <==> McuPasses(e, s, last0, units))
            && (ok ==>
                  && BetweenMcus(e, s, LastAfter(s, last0, units)) && e.Numbered(0)
                  && e.restartsToGo == ToGoNext(s.interval, old(e.restartsToGo))
                  && e.segs == (if due then old(e.segs) + [old(e.log)] else old(e.segs))
                  && e.log == (if due then [] else old(e.log)) + McuTokens(s, last0, units))
  {
    hide e.Sound, e.Passes, McuPasses, RunTokens, McuFits, McuTokens, LastAfter, GoodTables;
    e.SoundBuffer();
    NoRun(e, e.bitBuffer[..0]);
    assert e.log + [] == e.log;
    ok := e.BeginMcu();
    ghost var last0 := e.lastDc;
    ok := EncodeUnits(e, s, units, last0);
    if !ok {
      return;
    }
    e.EndMcu();
  }

  // ---- The scan ----------------------------------------------------------------------------------------------------

  ghost predicate RestPasses(e: P.ProgEncoder, s: DcScan, toGo: nat, last: seq<int>, mcus: seq<seq<Unit>>)
    requires McusOf(s, mcus) && |last| == |s.tbls|
  {
    SegsFit(s, toGo, last, mcus) && e.Passes(AllOf(DcSegsFrom(s, toGo, last, [], mcus)))
  }

  lemma RestDue(e: P.ProgEncoder, s: DcScan, toGo: nat, last: seq<int>, mcus: seq<seq<Unit>>)
    requires McusOf(s, mcus) && |last| == |s.tbls| && IsDue(s.interval, toGo) && mcus != []
    ensures RestPasses(e, s, toGo, last, mcus) <==> RestPasses(e, s, s.interval, ZeroLast(s), mcus)
  {
    hide e.Passes, AllOf, DcSegsFrom, SegsFit;
    SegsDue(s, toGo, last, [], mcus);
    if DcScanOk(s, mcus) {
      AllOfCons([], DcSegs(s, mcus));
      assert [] + AllOf(DcSegs(s, mcus)) == AllOf(DcSegs(s, mcus));
    }
  }

  lemma RestStep(e: P.ProgEncoder, s: DcScan, toGo: nat, last: seq<int>, mcus: seq<seq<Unit>>)
    requires McusOf(s, mcus) && |last| == |s.tbls| && !IsDue(s.interval, toGo) && mcus != [] && GoodTables(e.tables)
    ensures McusOf(s, mcus[1..]) && GoodUnits(s.tbls, mcus[0])
    ensures RestPasses(e, s, toGo, last, mcus) <==>
              McuPasses(e, s, last, mcus[0])
                  && RestPasses(e, s, ToGoNext(s.interval, toGo), LastAfter(s, last, mcus[0]), mcus[1..])
  {
    hide e.Passes, AllOf, DcSegsFrom, SegsFit, McuFits, McuTokens, LastAfter, GoodTables;
    SegsStep(s, toGo, last, [], mcus);
    if SegsFit(s, toGo, last, mcus) {
      var next, toGo' := LastAfter(s, last, mcus[0]), ToGoNext(s.interval, toGo);
      var toks := McuTokens(s, last, mcus[0]);
      assert [] + toks == toks;
      SegsCur(s, toGo', next, toks, mcus[1..]);
      SegsOk(s, toGo', next, mcus[1..]);
      PassesSplit(e, toks, AllOf(DcSegsFrom(s, toGo', next, [], mcus[1..])));
    }
  }

  lemma NextPasses(e: P.ProgEncoder, s: DcScan, toGo: nat, last: seq<int>, segs: seq<seq<Token>>, cur: seq<Token>,
      mcus: seq<seq<Unit>>)
    requires McusOf(s, mcus) && |last| == |s.tbls| && mcus != [] && GoodTables(e.tables)
    ensures McusOf(s, mcus[1..]) && GoodUnits(s.tbls, mcus[0])
    ensures var due := IsDue(s.interval, toGo);
            var last0 := if due then ZeroLast(s) else last;
            var next, toGo' := LastAfter(s, last0, mcus[0]), ToGoNext(s.interval, toGo);
            && (RestPasses(e, s, toGo, last, mcus) <==>
                McuPasses(e, s, last0, mcus[0]) && RestPasses(e, s, toGo', next, mcus[1..]))
            && (RestPasses(e, s, toGo, last, mcus) ==>
                  && SegsFit(s, toGo, last, mcus) && McuFits(s, last0, mcus[0]) && SegsFit(s, toGo', next, mcus[1..])
                  && segs + DcSegsFrom(s, toGo, last, cur, mcus)
                     == (if due then segs + [cur] else segs)
                        + DcSegsFrom(s, toGo', next, (if due then [] else cur) + McuTokens(s, last0, mcus[0]),
                            mcus[1..]))
  {
    hide e.Passes, AllOf, DcSegsFrom, SegsFit, McuFits, McuTokens, LastAfter, GoodTables, RestPasses, McuPasses;
    PassesFit(e, s, toGo, last, mcus);
    if IsDue(s.interval, toGo) {
      RestDue(e, s, toGo, last, mcus);
      SegsDue(s, toGo, last, cur, mcus);
      RestStep(e, s, s.interval, ZeroLast(s), mcus);
      SegsStep(s, s.interval, ZeroLast(s), [], mcus);
      if RestPasses(e, s, toGo, last, mcus) {
        assert segs + ([cur] + DcSegs(s, mcus)) == (segs + [cur]) + DcSegs(s, mcus);
      }
    } else {
      RestStep(e, s, toGo, last, mcus);
      SegsStep(s, toGo, last, cur, mcus);
    }
  }

  lemma PassesFit(e: P.ProgEncoder, s: DcScan, toGo: nat, last: seq<int>, mcus: seq<seq<Unit>>)
    requires McusOf(s, mcus) && |last| == |s.tbls|
    ensures RestPasses(e, s, toGo, last, mcus) ==> SegsFit(s, toGo, last, mcus)
  {
  }

  lemma ScanPasses(e: P.ProgEncoder, s: DcScan, mcus: seq<seq<Unit>>)
    requires McusOf(s, mcus)
    ensures RestPasses(e, s, s.interval, ZeroLast(s), mcus) <==> DcScanOk(s, mcus) && e.Passes(TokensOfDc(s, mcus))
    ensures DcScanOk(s, mcus) ==> [] + DcSegsFrom(s, s.interval, ZeroLast(s), [], mcus) == DcSegs(s, mcus)
  {
  }

  lemma NoneLeftPasses(e: P.ProgEncoder, s: DcScan, toGo: nat, last: seq<int>, cur: seq<Token>)
    requires GoodDcScan(s) && |last| == |s.tbls| && GoodTables(e.tables)
    ensures McusOf(s, []) && RestPasses(e, s, toGo, last, []) && SegsFit(s, toGo, last, [])
    ensures DcSegsFrom(s, toGo, last, cur, []) == [cur]
  {
    hide GoodTables, DcSegsFrom, SegsFit, AllOf, e.Passes;
    SegsEnd(s, toGo, last, cur);
    SegsEnd(s, toGo, last, []);
    OneSegment([]);
    NothingPasses(e);
  }

  method EncodeDcScan(e: P.ProgEncoder, s: DcScan, mcus: seq<seq<Unit>>) returns (ok: bool)
    requires BetweenMcus(e, s, ZeroLast(s)) && e.Numbered(0) && e.log == [] && e.segs == []
        && e.restartsToGo == s.interval && McusOf(s, mcus)
    modifies e, e.w, e.dcCounts, e.acCounts
    ensures ok <==> DcScanOk(s, mcus) && e.Passes(TokensOfDc(s, mcus))
    ensures ok ==> e.Sound() && e.Numbered(0) && e.segs + [e.log] == DcSegs(s, mcus)
  {
    hide e.Sound, e.Passes, GoodTables, RestPasses, McuPasses, DcSegsFrom, SegsFit, AllOf, McuFits, McuTokens,
        LastAfter, GoodUnits, e.Numbered;
    e.SoundBuffer();
    ghost var now := mcus;
    ScanPasses(e, s, mcus);
    PassesFit(e, s, s.interval, ZeroLast(s), mcus);
    for i := 0 to |mcus|
      invariant now == mcus[i..] && McusOf(s, now) && BetweenMcus(e, s, e.lastDc) && e.Numbered(0)
      invariant RestPasses(e, s, s.interval, ZeroLast(s), mcus) == RestPasses(e, s, e.restartsToGo, e.lastDc, now)
      invariant RestPasses(e, s, e.restartsToGo, e.lastDc, now) ==>
                  && DcScanOk(s, mcus) && SegsFit(s, e.restartsToGo, e.lastDc, now)
                  && e.segs + DcSegsFrom(s, e.restartsToGo, e.lastDc, e.log, now) == DcSegs(s, mcus)
    {
      NextPasses(e, s, e.restartsToGo, e.lastDc, e.segs, e.log, now);
      ok := EncodeMcu(e, s, mcus[i], e.lastDc);
      if !ok {
        return;
      }
      now := now[1..];
    }
    NoneLeftPasses(e, s, e.restartsToGo, e.lastDc, e.log);
    ok := true;
  }

  // ---- Symbols that occur ------------------------------------------------------------------------------------------

  predicate Occurs(units: seq<Unit>, ci: nat) {
    exists i :: 0 <= i < |units| && units[i].ci == ci
  }

  // Every component of the scan has a block in it.
  predicate AllThere(s: DcScan, mcus: seq<seq<Unit>>) {
    forall ci :: 0 <= ci < |s.tbls| ==> Occurs(Flat(mcus), ci)
  }

  lemma {:induction false} FlatSplit(a: seq<seq<Unit>>, b: seq<seq<Unit>>)
    ensures Flat(a + b) == Flat(a) + Flat(b)
    decreases |a|
  {
    if a == [] {
      assert a + b == b;
    } else {
      FlatSplit(a[1..], b);
      assert (a + b)[1..] == a[1..] + b;
    }
  }

  lemma OccursInEither(a: seq<Unit>, b: seq<Unit>, ci: nat)
    requires Occurs(a + b, ci)
    ensures Occurs(a, ci) || Occurs(b, ci)
  {
    var i :| 0 <= i < |a + b| && (a + b)[i].ci == ci;
    if i >= |a| { assert b[i - |a|].ci == ci; } else { assert a[i].ci == ci; }
  }

  lemma PieceHas(s: DcScan, last: seq<int>, mcus: seq<seq<Unit>>)
    requires McusOf(s, mcus) && !s.refine && |last| == |s.tbls| && PieceFits(s, last, mcus)
    ensures Uses(PieceTokens(s, last, mcus), true, s.tbls)
    ensures forall ci ::
        0 <= ci < |s.tbls| && Occurs(Flat(mcus), ci) ==> Has(PieceTokens(s, last, mcus), true, s.tbls[ci])
  {
    hide DcScanTokens, FirstTokens, Has, Uses, DcFits, DcScanFits;
    OneList(s, last, mcus);
    DcScanUses(s.tbls, last, Flat(mcus), s.al);
    forall ci | 0 <= ci < |s.tbls| && Occurs(Flat(mcus), ci) ensures Has(PieceTokens(s, last, mcus), true, s.tbls[ci]) {
      var i :| 0 <= i < |Flat(mcus)| && Flat(mcus)[i].ci == ci;
      assert Has(PieceTokens(s, last, mcus), true, s.tbls[Flat(mcus)[i].ci]);
    }
  }

  lemma {:induction false} DcScanHas(s: DcScan, mcus: seq<seq<Unit>>)
    requires McusOf(s, mcus) && !s.refine && DcScanOk(s, mcus)
    ensures Uses(TokensOfDc(s, mcus), true, s.tbls)
    ensures forall ci :: 0 <= ci < |s.tbls| && Occurs(Flat(mcus), ci) ==> Has(TokensOfDc(s, mcus), true, s.tbls[ci])
    decreases |mcus|
  {
    hide PieceTokens, Has, Uses, PieceFits, Occurs, Flat, AllOf;
    McuParts(s, s.interval, mcus);
    var now, later, segs := Now(s.interval, s.interval, mcus), Later(s.interval, s.interval, mcus), DcSegs(s, mcus);
    var first := PieceTokens(s, ZeroLast(s), now);
    PieceHas(s, ZeroLast(s), now);
    assert [] + first == first;
    AllOfCons(first, segs[1..]);
    assert segs == [first] + segs[1..];
    if later == [] {
      NoSegments();
      assert segs[1..] == [] && first + [] == first && now == mcus;
    } else {
      assert segs[1..] == DcSegs(s, later);
      DcScanHas(s, later);
      UsesMore(first, TokensOfDc(s, later), true, s.tbls);
      FlatSplit(now, later);
      forall ci | 0 <= ci < |s.tbls| && Occurs(Flat(mcus), ci) ensures Has(TokensOfDc(s, mcus), true, s.tbls[ci]) {
        OccursInEither(Flat(now), Flat(later), ci);
        HasMore(first, TokensOfDc(s, later), true, s.tbls[ci]);
      }
    }
  }

  // ---- Both passes -------------------------------------------------------------------------------------------------

  method NewEncoder(s: DcScan, tables: Tables, gather: bool, dest: seq<byte>) returns (e: P.ProgEncoder)
    requires GoodDcScan(s) && GoodTables(tables)
    ensures fresh(e) && fresh(e.w) && fresh(e.dcCounts) && fresh(e.acCounts) && fresh(e.bitBuffer)
    ensures BetweenMcus(e, s, ZeroLast(s)) && e.Numbered(0) && e.log == [] && e.segs == []
        && e.restartsToGo == s.interval
    ensures e.tables == tables && e.gather == gather && e.dest == dest
  {
    hide GoodTables, e.Sound;
    e := new P.ProgEncoder(tables, gather, 0, 0, s.interval, |s.tbls|, dest);
    assert ZeroLast(s) == e.lastDc;
  }

  lemma AllIsScan(e: P.ProgEncoder, s: DcScan, mcus: seq<seq<Unit>>)
    requires McusOf(s, mcus) && DcScanOk(s, mcus) && e.segs + [e.log] == DcSegs(s, mcus)
    ensures e.All() == TokensOfDc(s, mcus)
  {
    hide DcScanOk, DcSegs, AllOf;
    AllOfSnoc(e.segs, e.log);
  }

  lemma GatherPasses(g: P.ProgEncoder, s: DcScan, mcus: seq<seq<Unit>>)
    requires McusOf(s, mcus) && g.gather && GoodTables(g.tables)
    ensures DcScanOk(s, mcus) ==> g.Passes(TokensOfDc(s, mcus))
  {
    hide DcScanOk, TokensOfDc, GoodTables;
  }

  method GatherDcScan(s: DcScan, mcus: seq<seq<Unit>>) returns (r: Outcome, t: Tabs)
    requires McusOf(s, mcus) && !s.refine && AllThere(s, mcus)
    requires DcScanOk(s, mcus) ==> |TokensOfDc(s, mcus)| < MAX_COUNT
    ensures r == OutOfRange <==> !DcScanOk(s, mcus)
    ensures r == TooLongACode <==> DcScanOk(s, mcus) && AnyTooLong(TokensOfDc(s, mcus), true, s.tbls)
    ensures r == Written || r == OutOfRange || r == TooLongACode
    ensures r == Written ==> MadeFor(true, s.tbls, t) && TokensCoded(CodesOf(true, t), TokensOfDc(s, mcus))
  {
    hide GoodTables, DcScanOk, DcSegs, AnyTooLong, Uses, Has, MadeFor, TokensCoded, AllOf, BetweenMcus, Occurs;
    t := Tabs([], []);
    A.NoTablesGood();
    var none := seq(NUM_HUFF_TBLS, _ => NO_TABLE);
    var g := NewEncoder(s, Tables(none, none), true, []);
    GatherPasses(g, s, mcus);
    var ok := EncodeDcScan(g, s, mcus);
    if !ok {
      return OutOfRange, t;
    }
    AllIsScan(g, s, mcus);
    DcScanHas(s, mcus);
    ok, t := ProgGather.FinishPassGather(g, true, s.tbls);
    r := if ok then Written else TooLongACode;
  }

  lemma {:induction false} RefineSymbols(s: DcScan, mcus: seq<seq<Unit>>)
    requires McusOf(s, mcus) && s.refine && DcScanOk(s, mcus)
    ensures forall i :: 0 <= i < |TokensOfDc(s, mcus)| ==> TokensOfDc(s, mcus)[i].Raw?
    decreases |mcus|
  {
    hide RefineBits, AllOf;
    McuParts(s, s.interval, mcus);
    var later, segs := Later(s.interval, s.interval, mcus), DcSegs(s, mcus);
    var first := PieceTokens(s, ZeroLast(s), Now(s.interval, s.interval, mcus));
    assert [] + first == first;
    AllOfCons(first, segs[1..]);
    assert segs == [first] + segs[1..];
    if later == [] {
      NoSegments();
      assert segs[1..] == [] && first + [] == first;
    } else {
      assert segs[1..] == DcSegs(s, later);
      RefineSymbols(s, later);
      var all, rest := TokensOfDc(s, mcus), TokensOfDc(s, later);
      assert all == first + rest;
      forall i | 0 <= i < |all| ensures all[i].Raw? {
        if i >= |first| { assert all[i] == rest[i - |first|]; }
      }
    }
  }

  // A refinement scan has no symbols and so no table: it needs no statistics pass.
  method WriteDcScan(s: DcScan, mcus: seq<seq<Unit>>, dest: seq<byte>) returns (r: Outcome, t: Tabs, out: seq<byte>)
    requires McusOf(s, mcus) && AllThere(s, mcus)
    requires DcScanOk(s, mcus) ==> |TokensOfDc(s, mcus)| < MAX_COUNT
    ensures r != MissingCode
    ensures r == OutOfRange <==> !DcScanOk(s, mcus)
    ensures r == TooLongACode <==> !s.refine && DcScanOk(s, mcus) && AnyTooLong(TokensOfDc(s, mcus), true, s.tbls)
    ensures r == Written ==>
        GoodTables(CodesOf(true, t)) && (!s.refine ==> MadeFor(true, s.tbls, t))
        && TokensCoded(CodesOf(true, t), TokensOfDc(s, mcus))
        && Finished(CodesOf(true, t), dest, DcSegs(s, mcus), out)
  {
    hide GoodTables, DcScanOk, DcSegs, AnyTooLong, MadeFor, TokensCoded, AllThere, Finished, AllOf, BetweenMcus;
    out := dest;
    var none := seq(NUM_HUFF_TBLS, _ => NO_TABLE);
    r, t := Written, Tabs([], none);
    if !s.refine {
      r, t := GatherDcScan(s, mcus);
      if r != Written {
        return;
      }
      A.MadeIsGood(true, s.tbls, t);
    } else {
      A.NoTablesGood();
      RefineFits(s, mcus);
      RefineSymbols(s, mcus);
      RawsPass(CodesOf(true, t), TokensOfDc(s, mcus));
    }
    var e := NewEncoder(s, CodesOf(true, t), false, dest);
    var ok := EncodeDcScan(e, s, mcus);
    if !ok {
      return MissingCode, t, out;
    }
    A.FlushScan(e);
    out := e.w.out;
  }

  lemma {:induction false} RefineFits(s: DcScan, mcus: seq<seq<Unit>>)
    requires McusOf(s, mcus) && s.refine
    ensures DcScanOk(s, mcus)
    decreases |mcus|
  {
    McuParts(s, s.interval, mcus);
    if Later(s.interval, s.interval, mcus) != [] { RefineFits(s, Later(s.interval, s.interval, mcus)); }
  }
}
