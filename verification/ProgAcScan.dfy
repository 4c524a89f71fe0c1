// A whole progressive AC scan in two passes, written and read back: every coefficient
// of the band is then known down to bit al.
module ProgAcScan {
  import opened Intervals
  import opened Coefs
  import opened Bytes
  import opened ZigzagOrder
  import opened HuffGen
  import opened HuffCode
  import opened HuffDerived
  import opened HuffTree
  import opened HuffBitWriter
  import opened HuffBitReader
  import opened HuffTokens
  import opened HuffSeqEncoder
  import opened HuffSegments
  import opened HuffSeqScan
  import opened HuffOptimise
  import opened ProgTokens
  import opened ProgRead
  import opened ProgBlocks
  import opened ProgAcFirstDecoder
  import opened ProgAcRefineDecoder
  import opened ProgIntervals
  import opened ProgAcIntervals
  import opened ProgScanEncoder
  import opened ProgScanDecoder
  import opened ProgGather
  import opened ProgApprox
  import opened P = ProgEncoder
  import PR = ProgRefine
  import D = ProgDecoder

  lemma IsGoodAcScan(s: AcScan)
    requires ScanOrder(s.order, 63) && 1 <= s.ss <= s.se < 64 && s.tbl < NUM_HUFF_TBLS
    requires s.al + (if s.refine then 1 else 0) <= MAX_AL
    ensures GoodAcScan(s)
  {
    BandPlaces(s.order, s.ss, s.se);
  }

  // ---- Writing -----------------------------------------------------------------------------------------------------

  lemma PieceUses(s: AcScan, blocks: seq<seq<int>>, run: nat, bits: seq<bool>)
    requires GoodAcScan(s) && Blocks(blocks) && AcFits(s, blocks) && Waits(s, run, bits)
    ensures Uses(PieceTokens(s, blocks, run, bits), false, [s.tbl])
    ensures blocks != [] ==> Has(PieceTokens(s, blocks, run, bits), false, s.tbl)
  {
    hide GoodAcScan, ScanFirst, ScanRefine, Uses, Has, BandsInRange, CoefsOf, MagsOf;
    TableInRange(s);
    if s.refine {
      ScanRefineUses(s.tbl, RefineBands(s, blocks), Width(s), run, bits);
    } else {
      FitsBands(s, blocks);
      ScanFirstUses(s.tbl, FirstBands(s, blocks), Width(s), run);
    }
  }

  // Every scan of at least one block has a symbol, and only symbols of its table.
  lemma {:induction false} AcScanUses(s: AcScan, blocks: seq<seq<int>>)
    requires GoodAcScan(s) && Blocks(blocks) && AcFits(s, blocks) && blocks != []
    ensures Uses(AcScanTokens(s, blocks), false, [s.tbl]) && Has(AcScanTokens(s, blocks), false, s.tbl)
    decreases |blocks|
  {
    hide GoodAcScan, PieceTokens, Uses, Has, AcFits, AllOf;
    FitsParts(s, s.interval, blocks);
    var now, later, segs := Now(s.interval, s.interval, blocks), Later(s.interval, s.interval, blocks),
        AcSegs(s, blocks);
    var first := PieceTokens(s, now, 0, []);
    PieceUses(s, now, 0, []);
    assert [] + first == first;
    AllOfCons(first, segs[1..]);
    assert segs == [first] + segs[1..];
    if later == [] {
      NoSegments();
      assert segs[1..] == [] && first + [] == first;
    } else {
      assert segs[1..] == AcSegs(s, later);
      AcScanUses(s, later);
      UsesMore(first, AcScanTokens(s, later), false, [s.tbl]);
      HasMore(first, AcScanTokens(s, later), false, s.tbl);
    }
  }

  method NewEncoder(s: AcScan, tables: Tables, gather: bool, dest: seq<byte>) returns (e: P.ProgEncoder)
    requires GoodAcScan(s) && GoodTables(tables)
    ensures fresh(e) && fresh(e.w) && fresh(e.dcCounts) && fresh(e.acCounts) && fresh(e.bitBuffer)
    ensures BetweenMcus(e, s, 0, []) && e.Numbered(0) && e.log == [] && e.segs == [] && e.restartsToGo == s.interval
    ensures e.tables == tables && e.gather == gather && e.dest == dest
  {
    hide GoodAcScan, GoodTables, e.Sound;
    TableInRange(s);
    e := new P.ProgEncoder(tables, gather, s.tbl, s.ss, s.interval, 1, dest);
    assert e.bitBuffer[..0] == [];
  }

  // The statistics pass.
  method GatherAcScan(s: AcScan, blocks: seq<seq<int>>) returns (r: Outcome, t: Tabs)
    requires GoodAcScan(s) && Blocks(blocks) && blocks != []
    requires AcFits(s, blocks) ==> |AcScanTokens(s, blocks)| < MAX_COUNT
    ensures r == OutOfRange <==> !AcFits(s, blocks)
    ensures r == TooLongACode <==> AcFits(s, blocks) && AnyTooLong(AcScanTokens(s, blocks), false, [s.tbl])
    ensures r == Written || r == OutOfRange || r == TooLongACode
    ensures r == Written ==> MadeFor(false, [s.tbl], t) && TokensCoded(CodesOf(false, t), AcScanTokens(s, blocks))
  {
    hide GoodTables, AcFits, AcSegs, GoodAcScan, AnyTooLong, Uses, Has, MadeFor, TokensCoded, AllOf, BetweenMcus;
    t := Tabs([], []);
    NoTablesGood();
    TableInRange(s);
    var none := seq(NUM_HUFF_TBLS, _ => NO_TABLE);
    var g := NewEncoder(s, Tables(none, none), true, []);
    GatherPasses(g, s, blocks);
    var ok := EncodeAcScan(g, s, blocks);
    if !ok {
      return OutOfRange, t;
    }
    AllIsScan(g, s, blocks);
    AcScanUses(s, blocks);
    ok, t := ProgGather.FinishPassGather(g, false, [s.tbl]);
    r := if ok then Written else TooLongACode;
  }

  lemma AllIsScan(e: P.ProgEncoder, s: AcScan, blocks: seq<seq<int>>)
    requires GoodAcScan(s) && Blocks(blocks) && AcFits(s, blocks) && e.segs + [e.log] == AcSegs(s, blocks)
    ensures e.All() == AcScanTokens(s, blocks)
  {
    hide GoodAcScan, AcFits, AcSegs, AllOf;
    AllOfSnoc(e.segs, e.log);
  }

  // Gathers statistics, makes the table and writes the scan, never getting stuck for want
  // of a code.
  method WriteAcScan(s: AcScan, blocks: seq<seq<int>>, dest: seq<byte>) returns (r: Outcome, t: Tabs, out: seq<byte>)
    requires GoodAcScan(s) && Blocks(blocks) && blocks != []
    requires AcFits(s, blocks) ==> |AcScanTokens(s, blocks)| < MAX_COUNT
    ensures r != MissingCode
    ensures r == OutOfRange <==> !AcFits(s, blocks)
    ensures r == TooLongACode <==> AcFits(s, blocks) && AnyTooLong(AcScanTokens(s, blocks), false, [s.tbl])
    ensures r == Written ==> MadeFor(false, [s.tbl], t) && TokensCoded(CodesOf(false, t), AcScanTokens(s, blocks))
                             && Finished(CodesOf(false, t), dest, AcSegs(s, blocks), out)
  {
    hide GoodTables, AcFits, AcSegs, GoodAcScan, AnyTooLong, Finished, MadeFor, TokensCoded, AllOf, BetweenMcus;
    out := dest;
    r, t := GatherAcScan(s, blocks);
    if r != Written {
      return;
    }
    MadeIsGood(false, [s.tbl], t);
    var e := NewEncoder(s, CodesOf(false, t), false, dest);
    var ok := EncodeAcScan(e, s, blocks);
    if !ok {
      return MissingCode, t, out;
    }
    FlushScan(e);
    out := e.w.out;
  }

  lemma NoTablesGood()
    ensures var none := seq(NUM_HUFF_TBLS, _ => NO_TABLE); GoodTables(Tables(none, none))
  {
    NoTableIsGood();
  }

  // Counting cannot fail.
  lemma GatherPasses(g: P.ProgEncoder, s: AcScan, blocks: seq<seq<int>>)
    requires GoodAcScan(s) && Blocks(blocks) && g.gather && GoodTables(g.tables)
    ensures AcFits(s, blocks) ==> g.Passes(AcScanTokens(s, blocks))
  {
    hide AcFits, AcScanTokens, GoodAcScan;
  }

  lemma MadeIsGood(isDC: bool, tbls: seq<nat>, t: Tabs)
    requires MadeFor(isDC, tbls, t)
    ensures GoodTables(CodesOf(isDC, t))
  {
  }

  // finish_pass_huff: the last byte is filled up.
  method FlushScan(e: P.ProgEncoder)
    requires e.Sound() && !e.gather
    modifies e.w
    ensures Finished(e.tables, e.dest, e.segs + [e.log], e.w.out)
  {
    hide Stuff, GoodTables, Counters, Closed, Wrote;
    WroteBits(e.tables, e.w.bits, e.log);
    ghost var before, all := e.w.dest, e.segs + [e.log];
    e.w.FlushBits();
    assert all[..|all| - 1] == e.segs && Packs(e.tables, e.log, e.w.data);
  }

  // ---- Reading -----------------------------------------------------------------------------------------------------

  // The coefficients of blocks are known to the decoder as far as pos says.
  predicate BlocksApprox(order: seq<nat>, blocks: seq<seq<int>>, had: seq<seq<int>>, pos: seq<int>)
    requires ScanOrder(order, 63)
  {
    |had| == |blocks| && forall i :: 0 <= i < |blocks| ==> BlockApprox(order, blocks[i], had[i], pos)
  }

  // The scan is one that the script check lets through at this point.
  predicate Expected(s: AcScan, pos: seq<int>) {
    |pos| == 64 && forall k :: s.ss <= k <= s.se && k < 64 ==> if s.refine then pos[k] == s.al + 1 else pos[k] < 0
  }

  lemma ScanReady(s: AcScan, blocks: seq<seq<int>>, had: seq<seq<int>>, pos: seq<int>)
    requires GoodAcScan(s) && Blocks(blocks) && Expected(s, pos) && BlocksApprox(s.order, blocks, had, pos)
    ensures AllReady(s, blocks, had)
  {
    hide BlockApprox, MagBand, SubBand, PR.Known, KnownIn;
    forall i | 0 <= i < |blocks| ensures Ready(s, blocks[i], had[i]) {
      assert BlockApprox(s.order, blocks[i], had[i], pos);
      Jcoefs(s.order, blocks[i], had[i], pos);
      if s.refine { RefineScanApprox(s.order, blocks[i], had[i], pos, s.ss, s.se, s.al); }
    }
  }

  lemma ScanDone(s: AcScan, blocks: seq<seq<int>>, had: seq<seq<int>>, pos: seq<int>, got: seq<seq<int>>)
    requires GoodAcScan(s) && Blocks(blocks) && Expected(s, pos) && BlocksApprox(s.order, blocks, had, pos)
        && |got| == |had|
    requires forall i :: 0 <= i < |blocks| ==> Received(s, blocks[i], had[i], got[i])
    ensures BlocksApprox(s.order, blocks, got, Mark(pos, s.ss, s.se, s.al))
  {
    hide BlockApprox, FoundIn, Placed, Changed, PR.ChangesIn, SubBand, TruncatedBand, MagBand;
    forall i | 0 <= i < |blocks| ensures BlockApprox(s.order, blocks[i], got[i], Mark(pos, s.ss, s.se, s.al)) {
      assert BlockApprox(s.order, blocks[i], had[i], pos);
      assert Received(s, blocks[i], had[i], got[i]);
      if s.refine {
        RefineScanApprox(s.order, blocks[i], had[i], pos, s.ss, s.se, s.al);
      } else {
        FirstScanApprox(s.order, blocks[i], had[i], pos, s.ss, s.se, s.al);
      }
    }
  }

  lemma Jcoefs(order: seq<nat>, z: seq<int>, b: seq<int>, pos: seq<int>)
    requires ScanOrder(order, 63) && BlockApprox(order, z, b, pos)
    ensures JcoefBlock(b) && |b| == 64
  {
    hide Approx, IsJcoef;
    assert GoodOrder(order[..64]);
    forall i | 0 <= i < 64 ensures IsJcoef(b[i]) {
      var k := Position(order[..64], i);
      assert order[k] == i;
      ApproxIsJcoef(z[i], k, pos[k]);
    }
  }

  method ReadAcScan(s: AcScan, input: seq<byte>, start: nat, waits: seq<seq<nat>>, t: HuffTbl, had: seq<seq<int>>,
                    ghost c: Tables, ghost blocks: seq<seq<int>>, ghost pos: seq<int>)
    returns (got: seq<seq<int>>)
    requires GoodAcScan(s) && Blocks(blocks) && AcFits(s, blocks) && |waits| == |had| && start <= |input|
    requires GoodTables(c) && Paired(t, TableOf(c, false, s.tbl)) && EncoderAccepts(false, t)
        && TokensCoded(c, AcScanTokens(s, blocks))
    requires Holds(input, StartAt(start), c, AcSegs(s, blocks), 0)
    requires Expected(s, pos) && BlocksApprox(s.order, blocks, had, pos)
    ensures BlocksApprox(s.order, blocks, got, Mark(pos, s.ss, s.se, s.al))
  {
    hide Paired, EncoderAccepts, DecoderAccepts, AcFits, AcSegs, AcScanTokens, Holds, BlocksApprox, WellFormed,
        DecodesWith,
      Expected, GoodTables, TokensCoded, Received, AllReady, Ahead, GoodAcScan;
    TableInRange(s);
    PairedWell(t, TableOf(c, false, s.tbl));
    EncoderTableDecodes(false, t);
    var d := MakeDDerivedTbl(false, t);
    DecoderMade(t, d.value);
    var dec := new D.ProgDecoder(input, start, s.interval, 1);
    IntervalStarts(input, dec.state, c, s, t, 0, blocks, start);
    ScanReady(s, blocks, had, pos);
    got := DecodeAcScan(dec, waits, d.value, had, s, c, blocks);
    ScanDone(s, blocks, had, pos, got);
  }

  lemma DecoderMade(t: HuffTbl, d: DTbl)
    requires DecodesWith(t, d) && WellFormed(t)
    ensures d.pub == t && DecodesWith(d.pub, d) && WellFormed(d.pub)
  {
  }
}
