// Whole progressive AC scans of the encoder, up to finish_pass_phuff or
// finish_pass_gather_phuff. What is emitted does not depend on the pass.
module ProgScanEncoder {
  import opened Intervals
  import opened HuffTokens
  import opened HuffSegments
  import opened ProgTokens
  import opened ProgIntervals
  import opened ProgAcIntervals
  import opened ProgAcEncoder
  import opened P = ProgEncoder

  // Between two MCUs: run blocks are waiting and their correction bits are bits.
  ghost predicate BetweenMcus(e: P.ProgEncoder, s: AcScan, run: nat, bits: seq<bool>)
    reads e, e.w, e.dcCounts, e.acCounts, e.bitBuffer
  {
    && e.Valid() && e.acTbl == s.tbl && e.ss == s.ss && e.interval == s.interval
    && e.eobrun == run && e.be <= e.bitBuffer.Length && e.bitBuffer[..e.be] == bits && Waits(s, run, bits)
  }

  method EncodeBlock(e: P.ProgEncoder, s: AcScan, block: seq<int>, ghost run: nat, ghost bits: seq<bool>)
      returns (ok: bool)
    requires BetweenMcus(e, s, run, bits) && GoodAcScan(s) && |block| == 64
    modifies e`log, e`eobrun, e`be, e.w, e.dcCounts, e.acCounts, e.bitBuffer
    ensures Waits(s, run, bits)
    ensures ok <==> BlockFits(s, block) && e.Passes(StepAc(s, block, run, bits).toks)
    ensures ok ==> var st := StepAc(s, block, run, bits);
    BetweenMcus(e, s, st.run, st.bits) && e.log == old(e.log) + st.toks
  {
    hide e.Sound, e.Passes, StepFirst, StepRefine, TruncatedBand, MagBand, SubBand, BandInRange, RunTokens;
    if s.refine {
      ok := EncodeAcRefine(e, block, s.order, s.ss, s.se, s.al);
    } else {
      ok := EncodeAcFirst(e, block, s.order, s.ss, s.se, s.al);
    }
  }

  // encode_mcu_AC_first and encode_mcu_AC_refine: a restart marker if one is due, the
  // block, and the counters of the restart interval.
  method EncodeMcu(e: P.ProgEncoder, s: AcScan, block: seq<int>, ghost run: nat, ghost bits: seq<bool>)
      returns (ok: bool)
    requires BetweenMcus(e, s, run, bits) && e.Numbered(0) && GoodAcScan(s) && |block| == 64
    modifies e, e.w, e.dcCounts, e.acCounts, e.bitBuffer
    ensures Waits(s, run, bits) && Waits(s, 0, [])
    ensures var due := IsDue(s.interval, old(e.restartsToGo));
            var run0, bits0 := if due then 0 else run, if due then [] else bits;
            && (ok <==>
                (due ==> e.Passes(RunTokens(s.tbl, run, bits))) && BlockFits(s, block)
                && e.Passes(StepAc(s, block, run0, bits0).toks))
            && (ok ==> var st := StepAc(s, block, run0, bits0);
                       && BetweenMcus(e, s, st.run, st.bits) && e.Numbered(0)
                       && e.restartsToGo == ToGoNext(s.interval, old(e.restartsToGo))
                       && e.segs ==
                          (if due then old(e.segs) + [old(e.log) + RunTokens(s.tbl, run, bits)] else old(e.segs))
                       && e.log == (if due then [] else old(e.log)) + st.toks)
  {
    hide e.Sound, e.Passes, StepAc, RunTokens, BlockFits, GoodAcScan;
    ok := e.BeginMcu();
    if !ok {
      return;
    }
    ghost var run0, bits0 := e.eobrun, e.bitBuffer[..e.be];
    ok := EncodeBlock(e, s, block, run0, bits0);
    if !ok {
      return;
    }
    e.EndMcu();
  }

  // The rest of the scan can be coded.
  ghost predicate RestPasses(e: P.ProgEncoder, s: AcScan, toGo: nat, run: nat, bits: seq<bool>, blocks: seq<seq<int>>)
    requires GoodAcScan(s) && Blocks(blocks) && Waits(s, run, bits)
  {
    AcFits(s, blocks) && e.Passes(AllOf(AcSegsFrom(s, toGo, run, bits, [], blocks)))
  }

  lemma RestDue(e: P.ProgEncoder, s: AcScan, toGo: nat, run: nat, bits: seq<bool>, blocks: seq<seq<int>>)
    requires GoodAcScan(s) && Blocks(blocks) && Waits(s, run, bits) && IsDue(s.interval, toGo) && blocks != []
        && GoodTables(e.tables)
    ensures RestPasses(e, s, toGo, run, bits, blocks) <==>
        e.Passes(RunTokens(s.tbl, run, bits)) && RestPasses(e, s, s.interval, 0, [], blocks)
  {
    hide GoodAcScan, RunTokens, AcSegsFrom, e.Passes, AllOf, GoodTables, AcFits;
    TableInRange(s);
    if AcFits(s, blocks) {
      var toks := RunTokens(s.tbl, run, bits);
      SegsDue(s, toGo, run, bits, [], blocks);
      assert [] + toks == toks;
      AllOfCons(toks, AcSegs(s, blocks));
      SegsOk(s, s.interval, 0, [], [], blocks);
      PassesSplit(e, toks, AllOf(AcSegs(s, blocks)));
    }
  }

  lemma RestStep(e: P.ProgEncoder, s: AcScan, toGo: nat, run: nat, bits: seq<bool>, blocks: seq<seq<int>>)
    requires GoodAcScan(s) && Blocks(blocks) && Waits(s, run, bits) && !IsDue(s.interval, toGo) && blocks != []
        && GoodTables(e.tables)
    ensures |blocks[0]| == 64 && Blocks(blocks[1..])
    ensures RestPasses(e, s, toGo, run, bits, blocks) <==>
              && BlockFits(s, blocks[0]) && e.Passes(StepAc(s, blocks[0], run, bits).toks)
              && var st := StepAc(s, blocks[0], run, bits);
              RestPasses(e, s, ToGoNext(s.interval, toGo), st.run, st.bits, blocks[1..])
  {
    hide GoodAcScan, StepAc, AcSegsFrom, e.Passes, AllOf, GoodTables, AcFits, BlockFits;
    OneFits(s, blocks);
    if AcFits(s, blocks) {
      var st := StepAc(s, blocks[0], run, bits);
      var toGo1 := ToGoNext(s.interval, toGo);
      SegsStep(s, toGo, run, bits, [], blocks);
      assert [] + st.toks == st.toks;
      SegsCur(s, toGo1, st.run, st.bits, st.toks, blocks[1..]);
      SegsOk(s, toGo1, st.run, st.bits, [], blocks[1..]);
      PassesSplit(e, st.toks, AllOf(AcSegsFrom(s, toGo1, st.run, st.bits, [], blocks[1..])));
    }
  }

  // One MCU, with the marker in front of it.
  lemma NextPasses(e: P.ProgEncoder, s: AcScan, toGo: nat, run: nat, bits: seq<bool>, segs: seq<seq<Token>>,
      cur: seq<Token>, blocks: seq<seq<int>>)
    requires GoodAcScan(s) && Blocks(blocks) && Waits(s, run, bits) && blocks != [] && GoodTables(e.tables)
    ensures |blocks[0]| == 64 && Blocks(blocks[1..]) && Waits(s, 0, [])
    ensures var due := IsDue(s.interval, toGo);
            var run0, bits0 := if due then 0 else run, if due then [] else bits;
            && (RestPasses(e, s, toGo, run, bits, blocks) <==>
                  && (due ==> e.Passes(RunTokens(s.tbl, run, bits)))
                  && BlockFits(s, blocks[0]) && e.Passes(StepAc(s, blocks[0], run0, bits0).toks)
                  && var st := StepAc(s, blocks[0], run0, bits0);
                  RestPasses(e, s, ToGoNext(s.interval, toGo), st.run, st.bits, blocks[1..]))
            && (RestPasses(e, s, toGo, run, bits, blocks) ==>
                  var st := StepAc(s, blocks[0], run0, bits0);
                  && AcFits(s, blocks) && AcFits(s, blocks[1..])
                  && segs + AcSegsFrom(s, toGo, run, bits, cur, blocks)
                     == (if due then segs + [cur + RunTokens(s.tbl, run, bits)] else segs)
                        + AcSegsFrom(s, ToGoNext(s.interval, toGo), st.run, st.bits,
                            (if due then [] else cur) + st.toks, blocks[1..]))
  {
    hide GoodAcScan, StepAc, AcSegsFrom, e.Passes, AllOf, GoodTables, AcFits, BlockFits, RunTokens, RestPasses;
    TableInRange(s);
    OneFits(s, blocks);
    PassesFit(e, s, toGo, run, bits, blocks);
    if IsDue(s.interval, toGo) {
      RestDue(e, s, toGo, run, bits, blocks);
      RestStep(e, s, s.interval, 0, [], blocks);
      if RestPasses(e, s, toGo, run, bits, blocks) {
        SegsDue(s, toGo, run, bits, cur, blocks);
        SegsStep(s, s.interval, 0, [], [], blocks);
        assert segs + ([cur + RunTokens(s.tbl, run, bits)] + AcSegs(s, blocks))
            == (segs + [cur + RunTokens(s.tbl, run, bits)]) + AcSegs(s, blocks);
      }
    } else {
      RestStep(e, s, toGo, run, bits, blocks);
      if RestPasses(e, s, toGo, run, bits, blocks) { SegsStep(s, toGo, run, bits, cur, blocks); }
    }
  }

  lemma PassesFit(e: P.ProgEncoder, s: AcScan, toGo: nat, run: nat, bits: seq<bool>, blocks: seq<seq<int>>)
    requires GoodAcScan(s) && Blocks(blocks) && Waits(s, run, bits)
    ensures RestPasses(e, s, toGo, run, bits, blocks) ==> AcFits(s, blocks)
  {
  }

  lemma NothingLeftPasses(e: P.ProgEncoder, s: AcScan, toGo: nat, run: nat, bits: seq<bool>)
    requires GoodAcScan(s) && Waits(s, run, bits)
    ensures RestPasses(e, s, toGo, run, bits, []) <==> e.Passes(RunTokens(s.tbl, run, bits))
  {
    hide GoodAcScan, AcSegsFrom, e.Passes, RunTokens;
    TableInRange(s);
    var toks := RunTokens(s.tbl, run, bits);
    SegsEnd(s, toGo, run, bits, []);
    assert [] + toks == toks;
    OneSegment(toks);
  }

  // Encodes the blocks and writes the run that is left over.
  method EncodeAcScan(e: P.ProgEncoder, s: AcScan, blocks: seq<seq<int>>) returns (ok: bool)
    requires BetweenMcus(e, s, 0, []) && e.Numbered(0) && e.log == [] && e.segs == [] && e.restartsToGo == s.interval
    requires GoodAcScan(s) && Blocks(blocks)
    modifies e, e.w, e.dcCounts, e.acCounts, e.bitBuffer
    ensures ok <==> AcFits(s, blocks) && e.Passes(AcScanTokens(s, blocks))
    ensures ok ==> e.Sound() && e.Numbered(0) && e.segs + [e.log] == AcSegs(s, blocks)
  {
    hide e.Sound, e.Passes, GoodTables, GoodAcScan, RestPasses, AcSegsFrom, AllOf, StepAc, BlockFits, RunTokens, AcFits,
        e.Numbered;
    e.SoundBuffer();
    ghost var now, bits: seq<bool> := blocks, [];
    ScanPasses(e, s, blocks);
    PassesFit(e, s, s.interval, 0, [], blocks);
    if AcFits(s, blocks) { assert [] + AcSegs(s, blocks) == AcSegs(s, blocks); }
    for i := 0 to |blocks|
      invariant now == blocks[i..] && Blocks(now) && BetweenMcus(e, s, e.eobrun, bits) && e.Numbered(0)
      invariant RestPasses(e, s, s.interval, 0, [], blocks) == RestPasses(e, s, e.restartsToGo, e.eobrun, bits, now)
      invariant RestPasses(e, s, e.restartsToGo, e.eobrun, bits, now) ==>
                  && AcFits(s, blocks) && AcFits(s, now)
                  && e.segs + AcSegsFrom(s, e.restartsToGo, e.eobrun, bits, e.log, now) == AcSegs(s, blocks)
    {
      ghost var due, run0, bits0 := IsDue(s.interval, e.restartsToGo), e.eobrun, bits;
      NextPasses(e, s, e.restartsToGo, e.eobrun, bits, e.segs, e.log, now);
      ok := EncodeMcu(e, s, blocks[i], e.eobrun, bits);
      if !ok {
        return;
      }
      bits := StepAc(s, now[0], if due then 0 else run0, if due then [] else bits0).bits;
      now := now[1..];
    }
    NothingLeftPasses(e, s, e.restartsToGo, e.eobrun, bits);
    SegsEnd(s, e.restartsToGo, e.eobrun, bits, e.log);
    ok := e.EmitEobrun();
  }

  lemma ScanPasses(e: P.ProgEncoder, s: AcScan, blocks: seq<seq<int>>)
    requires GoodAcScan(s) && Blocks(blocks)
    ensures Waits(s, 0, [])
    ensures RestPasses(e, s, s.interval, 0, [], blocks) <==> AcFits(s, blocks) && e.Passes(AcScanTokens(s, blocks))
  {
  }
}
