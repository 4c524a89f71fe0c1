// A sequential Huffman scan on the encoder's side: MCUs, restart intervals, and the
// two passes that have to agree.
module HuffSeqScan {
  import opened MarkerSearch
  import opened Intervals
  import opened Bytes
  import opened ZigzagOrder
  import opened HuffBitWriter
  import opened HuffTokens
  import opened HuffBlock
  import opened HuffSeqEncoder
  import opened HuffSeqGather
  import opened HuffSegments

  datatype Comp = Comp(dcTbl: nat, acTbl: nat)

  // The components of a scan, the component of each block of an MCU, the coefficients
  // coded, and the number of MCUs between restart markers (zero for none).
  datatype Scan = Scan(comps: seq<Comp>, membership: seq<nat>, order: seq<nat>, se: nat, interval: nat)

  predicate GoodScan(s: Scan) {
    && ScanOrder(s.order, s.se)
    && (forall i :: 0 <= i < |s.comps| ==> s.comps[i].dcTbl < NUM_HUFF_TBLS && s.comps[i].acTbl < NUM_HUFF_TBLS)
    && (forall i :: 0 <= i < |s.membership| ==> s.membership[i] < |s.comps|)
  }

  function CompOf(s: Scan, i: nat): Comp
    requires GoodScan(s) && i < |s.membership|
  {
    s.comps[s.membership[i]]
  }

  predicate GoodMcu(s: Scan, mcu: seq<seq<int>>) {
    |mcu| == |s.membership| && forall i :: 0 <= i < |mcu| ==> |mcu[i]| == 64
  }

  // ---- The symbols of an MCU and of a scan ----------------------------------------------------------------

  function BandOf(s: Scan, mcu: seq<seq<int>>, i: nat): (z: seq<int>)
    requires GoodScan(s) && GoodMcu(s, mcu) && i < |mcu|
    ensures |z| == s.se + 1 && z[0] == mcu[i][0]
  {
    Band(s.order, s.se, mcu[i])
  }

  // Blocks from the i-th on, with the DC values that predict them.
  predicate McuInRange(s: Scan, last: seq<int>, mcu: seq<seq<int>>, i: nat)
    requires GoodScan(s) && GoodMcu(s, mcu) && |last| == |s.comps|
    decreases |mcu| - i
  {
    i >= |mcu| || (
      && InRange(BandOf(s, mcu, i), last[s.membership[i]])
      && McuInRange(s, last[s.membership[i] := mcu[i][0]], mcu, i + 1))
  }

  function McuTokens(s: Scan, last: seq<int>, mcu: seq<seq<int>>, i: nat): (toks: seq<Token>)
    requires GoodScan(s) && GoodMcu(s, mcu) && |last| == |s.comps| && McuInRange(s, last, mcu, i)
    ensures TokensOk(toks)
    decreases |mcu| - i
  {
    if i >= |mcu| then []
    else BlockTokens(CompOf(s, i).dcTbl, CompOf(s, i).acTbl, BandOf(s, mcu, i), last[s.membership[i]])
         + McuTokens(s, last[s.membership[i] := mcu[i][0]], mcu, i + 1)
  }

  function LastAfter(s: Scan, last: seq<int>, mcu: seq<seq<int>>, i: nat): (l: seq<int>)
    requires GoodScan(s) && GoodMcu(s, mcu) && |last| == |s.comps|
    ensures |l| == |last|
    decreases |mcu| - i
  {
    if i >= |mcu| then last else LastAfter(s, last[s.membership[i] := mcu[i][0]], mcu, i + 1)
  }

  // The predictions with which an MCU starts: zero again after a restart marker.
  function Predictions(s: Scan, last: seq<int>, toGo: nat): (l: seq<int>)
    ensures |l| == |last|
  {
    if s.interval > 0 && toGo == 0 then seq(|last|, _ => 0) else last
  }

  function ToGoAfter(s: Scan, toGo: nat): nat {
    ToGoNext(s.interval, toGo)
  }

  predicate ScanInRange(s: Scan, last: seq<int>, toGo: nat, mcus: seq<seq<seq<int>>>)
    requires GoodScan(s) && |last| == |s.comps| && forall i :: 0 <= i < |mcus| ==> GoodMcu(s, mcus[i])
    decreases |mcus|
  {
    mcus == [] || (
      var p := Predictions(s, last, toGo);
      McuInRange(s, p, mcus[0], 0) && ScanInRange(s, LastAfter(s, p, mcus[0], 0), ToGoAfter(s, toGo), mcus[1..]))
  }

  // Every symbol of the scan, whatever interval it belongs to.
  function ScanTokens(s: Scan, last: seq<int>, toGo: nat, mcus: seq<seq<seq<int>>>): (toks: seq<Token>)
    requires GoodScan(s) && |last| == |s.comps| && forall i :: 0 <= i < |mcus| ==> GoodMcu(s, mcus[i])
    requires ScanInRange(s, last, toGo, mcus)
    ensures TokensOk(toks)
    decreases |mcus|
  {
    if mcus == [] then []
    else
      var p := Predictions(s, last, toGo);
      McuTokens(s, p, mcus[0], 0) + ScanTokens(s, LastAfter(s, p, mcus[0], 0), ToGoAfter(s, toGo), mcus[1..])
  }

  // ---- The output pass -------------------------------------------------------------------------------------------

  function ZeroDc(s: Scan): (l: seq<int>)
    ensures |l| == |s.comps|
  {
    seq(|s.comps|, _ => 0)
  }

  class HuffEncoder {
    const dest: seq<byte>
    const scan: Scan
    const tables: Tables
    const w: BitWriter
    var lastDc: seq<int>
    var restartsToGo: nat
    var nextRestartNum: nat
    ghost var segs: seq<seq<Token>>   // the symbols of the intervals that are complete
    ghost var interval: seq<Token>    // the symbols since the last restart marker
    ghost var log: seq<Token>         // all symbols

    ghost predicate Valid() reads this, w {
      && GoodScan(scan) && GoodTables(tables) && |lastDc| == |scan.comps|
      && w.Valid() && Wrote(tables, [], w.bits, interval)
      && Closed(tables, dest, segs, w.dest) && log == AllOf(segs) + interval
      && (scan.interval == 0 ==> segs == [])
      && (restartsToGo == 0 || scan.interval > 0)
    }

    constructor (scan: Scan, tables: Tables, dest: seq<byte>)
      requires GoodScan(scan) && GoodTables(tables)
      ensures Ready() && fresh(w) && this.scan == scan && this.tables == tables && this.dest == dest
      ensures lastDc == ZeroDc(scan) && restartsToGo == scan.interval && log == [] && segs == [] && interval == []
    {
      this.scan, this.tables, this.dest := scan, tables, dest;
      w := new BitWriter(dest);
      lastDc := ZeroDc(scan);
      restartsToGo, nextRestartNum := scan.interval, 0;
      segs, interval, log := [], [], [];
    }

    // Restart markers are numbered in turn, modulo eight.
    ghost predicate Ready() reads this, w {
      Valid() && nextRestartNum == |segs| % 8
    }

    // emit_restart: the interval is complete with its padding, the marker follows.
    method EmitRestart()
      requires Ready() && scan.interval > 0
      modifies this`lastDc, this`interval, this`segs, w
      ensures Valid() && segs == old(segs) + [old(interval)] && interval == [] && lastDc == ZeroDc(scan)
    {
      hide Wrote, GoodTables, Closed, GoodScan;
      WroteBits(tables, w.bits, interval);
      w.FlushBits();
      ghost var before, data := w.dest, w.data;
      w.PutMarker(RST0 + nextRestartNum);
      CloseOne(tables, dest, segs, before, interval, data, w.out);
      AllOfSnoc(segs, interval);
      lastDc := ZeroDc(scan);
      segs := segs + [interval];
      interval := [];
      assert log == AllOf(segs) + interval;
      WroteNothing(tables, []);
    }

    method EncodeMcu(mcu: seq<seq<int>>) returns (ok: bool)
      requires Ready() && GoodMcu(scan, mcu)
      modifies this, w
      ensures var p := Predictions(scan, old(lastDc), old(restartsToGo));
              && (ok <==> McuWritable(scan, tables, p, mcu, 0))
              && (ok ==>
                  && Ready() && lastDc == LastAfter(scan, p, mcu, 0)
                  && restartsToGo == ToGoAfter(scan, old(restartsToGo))
                  && log == old(log) + McuTokens(scan, p, mcu, 0)
                  && (if scan.interval > 0 && old(restartsToGo) == 0
                             then segs == old(segs) + [old(interval)] && interval == McuTokens(scan, p, mcu, 0)
                             else segs == old(segs) && interval == old(interval) + McuTokens(scan, p, mcu, 0)))
    {
      hide w.Valid, Wrote, GoodTables, GoodScan, GoodMcu, Closed, AllOf, McuWritable, McuTokens, McuInRange, LastAfter;
      if scan.interval != 0 && restartsToGo == 0 {
        EmitRestart();
      }
      ok := EncodeBlocks(mcu);
      if !ok {
        return;
      }
      if scan.interval != 0 {
        if restartsToGo == 0 {
          restartsToGo := scan.interval;
          nextRestartNum := (nextRestartNum + 1) % 8;
        }
        restartsToGo := restartsToGo - 1;
      }
    }

    // finish_pass_huff
    method FinishPass() returns (ghost all: seq<seq<Token>>)
      requires Ready()
      modifies w
      ensures all == segs + [interval] && AllOf(all) == log && Finished(tables, dest, all, w.out)
    {
      hide Wrote, GoodTables, Closed, GoodScan;
      WroteBits(tables, w.bits, interval);
      all := segs + [interval];
      assert all[..|all| - 1] == segs;
      w.FlushBits();
      assert Packs(tables, interval, w.data);
    }

    // One block; its DC value is the next prediction for its component.
    method EncodeBlock(mcu: seq<seq<int>>, i: nat) returns (ok: bool)
      requires Valid() && GoodMcu(scan, mcu) && i < |mcu|
      modifies this`lastDc, this`interval, this`log, w
      ensures var c, z, last := CompOf(scan, i), BandOf(scan, mcu, i), old(lastDc)[scan.membership[i]];
              && (ok <==> Writable(tables, c.dcTbl, c.acTbl, z, last))
              && (ok ==> Valid() && lastDc == old(lastDc)[scan.membership[i] := mcu[i][0]]
                         && log == old(log) + BlockTokens(c.dcTbl, c.acTbl, z, last)
                         && interval == old(interval) + BlockTokens(c.dcTbl, c.acTbl, z, last))
    {
      hide w.Valid, Wrote, Writable, Closed, AllOf;
      var ci := scan.membership[i];
      var comp := scan.comps[ci];
      ghost var before, z, last := w.bits, BandOf(scan, mcu, i), lastDc[ci];
      ok := EncodeOneBlock(w, tables, comp.dcTbl, comp.acTbl, mcu[i], lastDc[ci], scan.order, scan.se);
      if !ok {
        return;
      }
      WritableInRange(tables, comp.dcTbl, comp.acTbl, z, last);
      ghost var toks := BlockTokens(comp.dcTbl, comp.acTbl, z, last);
      WroteMore(tables, [], before, w.bits, interval, toks);
      interval, log := interval + toks, log + toks;
      lastDc := lastDc[ci := mcu[i][0]];
    }

    method EncodeBlocks(mcu: seq<seq<int>>) returns (ok: bool)
      requires Valid() && GoodMcu(scan, mcu)
      modifies this`lastDc, this`interval, this`log, w
      ensures ok <==> McuWritable(scan, tables, old(lastDc), mcu, 0)
      ensures ok ==> Valid() && lastDc == LastAfter(scan, old(lastDc), mcu, 0)
                     && log == old(log) + McuTokens(scan, old(lastDc), mcu, 0)
                     && interval == old(interval) + McuTokens(scan, old(lastDc), mcu, 0)
    {
      hide w.Valid, Wrote, GoodTables, Closed, AllOf, Writable, LastAfter, TokensCoded, McuTokens, McuInRange,
          BlockTokens;
      ghost var done: seq<Token> := [];
      for i := 0 to |mcu|
        invariant Valid() && log == old(log) + done && interval == old(interval) + done
        invariant McuWritable(scan, tables, old(lastDc), mcu, 0) == McuWritable(scan, tables, lastDc, mcu, i)
        invariant LastAfter(scan, old(lastDc), mcu, 0) == LastAfter(scan, lastDc, mcu, i)
        invariant McuWritable(scan, tables, lastDc, mcu, i) ==>
                    McuInRange(scan, lastDc, mcu, i) && McuInRange(scan, old(lastDc), mcu, 0)
                    && done + McuTokens(scan, lastDc, mcu, i) == McuTokens(scan, old(lastDc), mcu, 0)
      {
        McuStep(scan, tables, lastDc, mcu, i, done);
        ghost var c, z, last := CompOf(scan, i), BandOf(scan, mcu, i), lastDc[scan.membership[i]];
        ok := EncodeBlock(mcu, i);
        if !ok {
          return;
        }
        WritableInRange(tables, c.dcTbl, c.acTbl, z, last);
        done := done + BlockTokens(c.dcTbl, c.acTbl, z, last);
      }
      McuEnd(scan, tables, lastDc, mcu);
      assert done + [] == done;
      ok := true;
    }
  }

  predicate McuWritable(s: Scan, t: Tables, last: seq<int>, mcu: seq<seq<int>>, i: nat)
    requires GoodScan(s) && GoodTables(t) && GoodMcu(s, mcu) && |last| == |s.comps|
  {
    McuInRange(s, last, mcu, i) && TokensCoded(t, McuTokens(s, last, mcu, i))
  }

  lemma WritableInRange(t: Tables, dcTbl: nat, acTbl: nat, z: seq<int>, lastDc: int)
    requires GoodTables(t) && dcTbl < NUM_HUFF_TBLS && acTbl < NUM_HUFF_TBLS && Writable(t, dcTbl, acTbl, z, lastDc)
    ensures InRange(z, lastDc)
  {
  }

  // What the i-th block contributes to its MCU.
  lemma McuStep(s: Scan, t: Tables, last: seq<int>, mcu: seq<seq<int>>, i: nat, done: seq<Token>)
    requires GoodScan(s) && GoodTables(t) && GoodMcu(s, mcu) && |last| == |s.comps| && i < |mcu|
    ensures var c, z, p, next := CompOf(s, i), BandOf(s, mcu, i), last[s.membership[i]],
        last[s.membership[i] := mcu[i][0]];
            && LastAfter(s, last, mcu, i) == LastAfter(s, next, mcu, i + 1)
            && (McuWritable(s, t, last, mcu, i) <==>
                Writable(t, c.dcTbl, c.acTbl, z, p) && McuWritable(s, t, next, mcu, i + 1))
            && (McuWritable(s, t, last, mcu, i) ==>
                  InRange(z, p) && McuInRange(s, last, mcu, i) && McuInRange(s, next, mcu, i + 1)
                  && done + McuTokens(s, last, mcu, i)
                     == (done + BlockTokens(c.dcTbl, c.acTbl, z, p)) + McuTokens(s, next, mcu, i + 1))
  {
    hide GoodTables, TokensCoded, BlockTokens, InRange;
    var c, z, p, next := CompOf(s, i), BandOf(s, mcu, i), last[s.membership[i]], last[s.membership[i] := mcu[i][0]];
    if McuInRange(s, last, mcu, i) {
      var a, b := BlockTokens(c.dcTbl, c.acTbl, z, p), McuTokens(s, next, mcu, i + 1);
      SplitCoded(t, a, b);
      assert done + (a + b) == (done + a) + b;
    }
  }

  lemma McuEnd(s: Scan, t: Tables, last: seq<int>, mcu: seq<seq<int>>)
    requires GoodScan(s) && GoodTables(t) && GoodMcu(s, mcu) && |last| == |s.comps|
    ensures McuWritable(s, t, last, mcu, |mcu|) && McuTokens(s, last, mcu, |mcu|) == []
        && LastAfter(s, last, mcu, |mcu|) == last
  {
  }

  // ---- The statistics pass ---------------------------------------------------------------------------------------

  // One array of counters for each table.
  predicate Counters(dc: seq<array<nat>>, ac: seq<array<nat>>) {
    && |dc| == |ac| == NUM_HUFF_TBLS
    && (forall i :: 0 <= i < NUM_HUFF_TBLS ==> dc[i].Length == ac[i].Length == COUNTERS)
    && (forall i, j :: 0 <= i < NUM_HUFF_TBLS && 0 <= j < NUM_HUFF_TBLS ==> dc[i] != ac[j])
    && (forall i, j :: 0 <= i < j < NUM_HUFF_TBLS ==> dc[i] != dc[j] && ac[i] != ac[j])
  }

  // The counters say how often each symbol occurs in the log.
  predicate Tallied(counts: seq<nat>, log: seq<Token>, isDC: bool, tbl: nat) {
    |counts| == COUNTERS && forall s :: 0 <= s < COUNTERS ==> counts[s] == CountOf(log, isDC, tbl, s)
  }

  lemma TalliedMore(before: seq<nat>, after: seq<nat>, log: seq<Token>, toks: seq<Token>, isDC: bool, tbl: nat)
    requires Tallied(before, log, isDC, tbl) && Counted(before, after, toks, isDC, tbl)
    ensures Tallied(after, log + toks, isDC, tbl)
  {
    forall s | 0 <= s < COUNTERS ensures after[s] == CountOf(log + toks, isDC, tbl, s) {
      CountConcat(log, toks, isDC, tbl, s);
    }
  }

  lemma NothingTallied(counts: seq<nat>, isDC: bool, tbl: nat)
    requires |counts| == COUNTERS && forall s :: 0 <= s < COUNTERS ==> counts[s] == 0
    ensures Tallied(counts, [], isDC, tbl)
  {
  }

  // start_pass clears the counters.
  method NewCounters() returns (counts: seq<array<nat>>)
    ensures |counts| == NUM_HUFF_TBLS && fresh(counts)
    ensures forall i :: 0 <= i < NUM_HUFF_TBLS ==> counts[i].Length == COUNTERS
    ensures forall i, j :: 0 <= i < j < NUM_HUFF_TBLS ==> counts[i] != counts[j]
    ensures forall i, s :: 0 <= i < NUM_HUFF_TBLS && 0 <= s < COUNTERS ==> counts[i][s] == 0
  {
    counts := [];
    for i := 0 to NUM_HUFF_TBLS
      invariant |counts| == i && fresh(counts)
      invariant forall j :: 0 <= j < i ==> counts[j].Length == COUNTERS
      invariant forall j, k :: 0 <= j < k < i ==> counts[j] != counts[k]
      invariant forall j, s :: 0 <= j < i && 0 <= s < COUNTERS ==> counts[j][s] == 0
    {
      var one := new nat[COUNTERS](_ => 0);
      counts := counts + [one];
    }
  }

  class HuffGather {
    const scan: Scan
    const dcCounts: seq<array<nat>>
    const acCounts: seq<array<nat>>
    var lastDc: seq<int>
    var restartsToGo: nat
    ghost var log: seq<Token>

    ghost predicate Valid()
      reads this, dcCounts, acCounts
    {
      && GoodScan(scan) && |lastDc| == |scan.comps| && Counters(dcCounts, acCounts)
      && (forall i ::
          0 <= i < NUM_HUFF_TBLS ==> Tallied(dcCounts[i][..], log, true, i) && Tallied(acCounts[i][..], log, false, i))
    }

    // htest_one_block on the i-th block of an MCU.
    method CountBlock(mcu: seq<seq<int>>, i: nat) returns (ok: bool)
      requires Valid() && GoodMcu(scan, mcu) && i < |mcu|
      modifies this`lastDc, this`log, dcCounts, acCounts
      ensures var c, z, last := CompOf(scan, i), BandOf(scan, mcu, i), old(lastDc)[scan.membership[i]];
              && (ok <==> InRange(z, last))
              && (ok ==> Valid() && lastDc == old(lastDc)[scan.membership[i] := mcu[i][0]]
                         && log == old(log) + BlockTokens(c.dcTbl, c.acTbl, z, last))
    {
      hide Tallied, Counted, InRange;
      var ci := scan.membership[i];
      var comp := scan.comps[ci];
      ghost var z, last := BandOf(scan, mcu, i), lastDc[ci];
      ok := HTestOneBlock(mcu[i], lastDc[ci], scan.order, scan.se, dcCounts[comp.dcTbl], acCounts[comp.acTbl],
          comp.dcTbl, comp.acTbl);
      if !ok {
        return;
      }
      ghost var toks := BlockTokens(comp.dcTbl, comp.acTbl, z, last);
      BlockSymbols(comp.dcTbl, comp.acTbl, z, last);
      forall j | 0 <= j < NUM_HUFF_TBLS
        ensures Tallied(dcCounts[j][..], log + toks, true, j) && Tallied(acCounts[j][..], log + toks, false, j)
      {
        if j != comp.dcTbl { OtherTable(dcCounts[j][..], toks, true, j); }
        if j != comp.acTbl { OtherTable(acCounts[j][..], toks, false, j); }
        TalliedMore(old(dcCounts[j][..]), dcCounts[j][..], log, toks, true, j);
        TalliedMore(old(acCounts[j][..]), acCounts[j][..], log, toks, false, j);
      }
      log := log + toks;
      lastDc := lastDc[ci := mcu[i][0]];
    }

    constructor (scan: Scan)
      requires GoodScan(scan)
      ensures Valid() && this.scan == scan && lastDc == ZeroDc(scan) && restartsToGo == scan.interval && log == []
      ensures fresh(dcCounts) && fresh(acCounts)
    {
      hide Tallied;
      var dc := NewCounters();
      var ac := NewCounters();
      this.scan, lastDc, restartsToGo, log := scan, ZeroDc(scan), scan.interval, [];
      dcCounts, acCounts := dc, ac;
      new;
      forall i | 0 <= i < NUM_HUFF_TBLS ensures Tallied(dcCounts[i][..], [], true, i)
          && Tallied(acCounts[i][..], [], false, i) {
        NothingTallied(dcCounts[i][..], true, i);
        NothingTallied(acCounts[i][..], false, i);
      }
    }

    method CountBlocks(mcu: seq<seq<int>>) returns (ok: bool)
      requires Valid() && GoodMcu(scan, mcu)
      modifies this`lastDc, this`log, dcCounts, acCounts
      ensures ok <==> McuInRange(scan, old(lastDc), mcu, 0)
      ensures ok ==> Valid() && lastDc == LastAfter(scan, old(lastDc), mcu, 0)
                     && log == old(log) + McuTokens(scan, old(lastDc), mcu, 0)
    {
      hide Tallied, InRange, BlockTokens;
      ghost var done: seq<Token> := [];
      for i := 0 to |mcu|
        invariant Valid() && log == old(log) + done
        invariant McuInRange(scan, old(lastDc), mcu, 0) == McuInRange(scan, lastDc, mcu, i)
        invariant LastAfter(scan, old(lastDc), mcu, 0) == LastAfter(scan, lastDc, mcu, i)
        invariant McuInRange(scan, lastDc, mcu, i) ==>
                    done + McuTokens(scan, lastDc, mcu, i) == McuTokens(scan, old(lastDc), mcu, 0)
      {
        ghost var c, z, last, next := CompOf(scan, i), BandOf(scan, mcu, i), lastDc[scan.membership[i]],
            lastDc[scan.membership[i] := mcu[i][0]];
        ok := CountBlock(mcu, i);
        if !ok {
          return;
        }
        ghost var toks := BlockTokens(c.dcTbl, c.acTbl, z, last);
        if McuInRange(scan, next, mcu, i + 1) {
          assert done + (toks + McuTokens(scan, next, mcu, i + 1)) == (done + toks) + McuTokens(scan, next, mcu, i + 1);
        }
        done := done + toks;
      }
      assert done + [] == done;
      ok := true;
    }

    // encode_mcu_gather
    method CountMcu(mcu: seq<seq<int>>) returns (ok: bool)
      requires Valid() && GoodMcu(scan, mcu)
      modifies this, dcCounts, acCounts
      ensures var p := Predictions(scan, old(lastDc), old(restartsToGo));
              && (ok <==> McuInRange(scan, p, mcu, 0))
              && (ok ==>
                    && Valid() && lastDc == LastAfter(scan, p, mcu, 0)
                    && restartsToGo == ToGoAfter(scan, old(restartsToGo))
                    && log == old(log) + McuTokens(scan, p, mcu, 0))
    {
      hide Tallied, InRange, BlockTokens, McuInRange, McuTokens, LastAfter;
      if scan.interval != 0 {
        if restartsToGo == 0 {
          lastDc := ZeroDc(scan);
          restartsToGo := scan.interval;
        }
        restartsToGo := restartsToGo - 1;
      }
      ok := CountBlocks(mcu);
    }
  }

  // ---- Both passes over a whole scan -------------------------------------------------------------------------------

  predicate GoodMcus(s: Scan, mcus: seq<seq<seq<int>>>) {
    forall i :: 0 <= i < |mcus| ==> GoodMcu(s, mcus[i])
  }

  predicate ScanWritable(s: Scan, t: Tables, last: seq<int>, toGo: nat, mcus: seq<seq<seq<int>>>)
    requires GoodScan(s) && GoodTables(t) && GoodMcus(s, mcus) && |last| == |s.comps|
  {
    ScanInRange(s, last, toGo, mcus) && TokensCoded(t, ScanTokens(s, last, toGo, mcus))
  }

  lemma ScanStep(s: Scan, last: seq<int>, toGo: nat, mcus: seq<seq<seq<int>>>, done: seq<Token>)
    requires GoodScan(s) && GoodMcus(s, mcus) && |last| == |s.comps| && mcus != []
    ensures var p := Predictions(s, last, toGo);
            var next, toGo' := LastAfter(s, p, mcus[0], 0), ToGoAfter(s, toGo);
            && GoodMcus(s, mcus[1..])
            && (ScanInRange(s, last, toGo, mcus) <==>
                McuInRange(s, p, mcus[0], 0) && ScanInRange(s, next, toGo', mcus[1..]))
            && (ScanInRange(s, last, toGo, mcus) ==>
                  done + ScanTokens(s, last, toGo, mcus) == (done + McuTokens(s, p, mcus[0], 0))
                      + ScanTokens(s, next, toGo', mcus[1..]))
  {
    hide McuInRange, McuTokens, LastAfter;
  }

  lemma ScanStepWritable(s: Scan, t: Tables, last: seq<int>, toGo: nat, mcus: seq<seq<seq<int>>>)
    requires GoodScan(s) && GoodTables(t) && GoodMcus(s, mcus) && |last| == |s.comps| && mcus != []
    ensures var p := Predictions(s, last, toGo);
            && GoodMcus(s, mcus[1..])
            && (ScanWritable(s, t, last, toGo, mcus) <==>
                  McuWritable(s, t, p, mcus[0], 0)
                      && ScanWritable(s, t, LastAfter(s, p, mcus[0], 0), ToGoAfter(s, toGo), mcus[1..]))
  {
    hide McuInRange, McuTokens, LastAfter, TokensCoded, GoodTables;
    var p := Predictions(s, last, toGo);
    if ScanInRange(s, last, toGo, mcus) {
      SplitCoded(t, McuTokens(s, p, mcus[0], 0),
          ScanTokens(s, LastAfter(s, p, mcus[0], 0), ToGoAfter(s, toGo), mcus[1..]));
    }
  }

  // The symbols of the scan by restart intervals, those of the current one so far being cur.
  function Segments(s: Scan, last: seq<int>, toGo: nat, cur: seq<Token>,
      mcus: seq<seq<seq<int>>>): (segs: seq<seq<Token>>)
    requires GoodScan(s) && GoodMcus(s, mcus) && |last| == |s.comps| && ScanInRange(s, last, toGo, mcus)
    decreases |mcus|
  {
    if mcus == [] then [cur]
    else
      var p := Predictions(s, last, toGo);
      var toks, next := McuTokens(s, p, mcus[0], 0), LastAfter(s, p, mcus[0], 0);
      if s.interval > 0 && toGo == 0 then [cur] + Segments(s, next, ToGoAfter(s, toGo), toks, mcus[1..])
      else Segments(s, next, ToGoAfter(s, toGo), cur + toks, mcus[1..])
  }

  // The output pass over a scan: it succeeds exactly when every coefficient is in
  // range and every symbol has a code, and it writes the symbols of the scan.
  method EncodeMcus(enc: HuffEncoder, mcus: seq<seq<seq<int>>>) returns (ok: bool)
    requires enc.Ready() && GoodMcus(enc.scan, mcus) && enc.log == [] && enc.segs == [] && enc.interval == []
    modifies enc, enc.w
    ensures ok <==> ScanWritable(enc.scan, enc.tables, old(enc.lastDc), old(enc.restartsToGo), mcus)
    ensures ok ==> enc.Ready() && enc.log == ScanTokens(enc.scan, old(enc.lastDc), old(enc.restartsToGo), mcus)
                   && enc.segs + [enc.interval] == Segments(enc.scan, old(enc.lastDc), old(enc.restartsToGo), [], mcus)
  {
    hide McuInRange, McuTokens, LastAfter, ScanInRange, ScanTokens, TokensCoded, GoodTables, McuWritable, Wrote, Closed,
        AllOf, Segments;
    ghost var now, s, t := mcus, enc.scan, enc.tables;
    for i := 0 to |mcus|
      invariant enc.Ready() && now == mcus[i..] && GoodMcus(s, now)
      invariant ScanWritable(s, t, old(enc.lastDc), old(enc.restartsToGo), mcus)
          == ScanWritable(s, t, enc.lastDc, enc.restartsToGo, now)
      invariant ScanWritable(s, t, enc.lastDc, enc.restartsToGo, now) ==>
                  && enc.log + ScanTokens(s, enc.lastDc, enc.restartsToGo, now)
                      == ScanTokens(s, old(enc.lastDc), old(enc.restartsToGo), mcus)
                  && enc.segs + Segments(s, enc.lastDc, enc.restartsToGo, enc.interval, now)
                     == Segments(s, old(enc.lastDc), old(enc.restartsToGo), [], mcus)
    {
      ScanStep(s, enc.lastDc, enc.restartsToGo, now, enc.log);
      ScanStepWritable(s, t, enc.lastDc, enc.restartsToGo, now);
      SegmentsStep(s, t, enc.lastDc, enc.restartsToGo, enc.segs, enc.interval, now);
      ok := enc.EncodeMcu(mcus[i]);
      if !ok {
        return;
      }
      now := now[1..];
    }
    ScanDone(s, t, enc.lastDc, enc.restartsToGo, enc.interval);
    assert enc.log + [] == enc.log;
    ok := true;
  }

  lemma SegmentsStep(s: Scan, t: Tables, last: seq<int>, toGo: nat, segs: seq<seq<Token>>, cur: seq<Token>,
      mcus: seq<seq<seq<int>>>)
    requires GoodScan(s) && GoodTables(t) && GoodMcus(s, mcus) && |last| == |s.comps| && mcus != []
    ensures ScanWritable(s, t, last, toGo, mcus) ==>
              var p := Predictions(s, last, toGo);
              var toks, next := McuTokens(s, p, mcus[0], 0), LastAfter(s, p, mcus[0], 0);
              segs + Segments(s, last, toGo, cur, mcus)
              == if s.interval > 0 && toGo == 0
                  then (segs + [cur]) + Segments(s, next, ToGoAfter(s, toGo), toks, mcus[1..])
                 else segs + Segments(s, next, ToGoAfter(s, toGo), cur + toks, mcus[1..])
  {
    hide McuInRange, McuTokens, LastAfter, TokensCoded, GoodTables;
  }

  lemma ScanDone(s: Scan, t: Tables, last: seq<int>, toGo: nat, cur: seq<Token>)
    requires GoodScan(s) && GoodTables(t) && |last| == |s.comps|
    ensures ScanWritable(s, t, last, toGo, []) && ScanTokens(s, last, toGo, []) == []
        && Segments(s, last, toGo, cur, []) == [cur]
  {
  }

  // The statistics pass over a scan counts those same symbols.
  method CountMcus(g: HuffGather, mcus: seq<seq<seq<int>>>) returns (ok: bool)
    requires g.Valid() && GoodMcus(g.scan, mcus) && g.log == []
    modifies g, g.dcCounts, g.acCounts
    ensures ok <==> ScanInRange(g.scan, old(g.lastDc), old(g.restartsToGo), mcus)
    ensures ok ==> g.Valid() && g.log == ScanTokens(g.scan, old(g.lastDc), old(g.restartsToGo), mcus)
  {
    hide McuInRange, McuTokens, LastAfter, ScanInRange, ScanTokens, Tallied, Counters;
    ghost var now, s := mcus, g.scan;
    for i := 0 to |mcus|
      invariant g.Valid() && now == mcus[i..] && GoodMcus(s, now)
      invariant ScanInRange(s, old(g.lastDc), old(g.restartsToGo), mcus)
          == ScanInRange(s, g.lastDc, g.restartsToGo, now)
      invariant ScanInRange(s, g.lastDc, g.restartsToGo, now) ==>
                  g.log + ScanTokens(s, g.lastDc, g.restartsToGo, now)
                      == ScanTokens(s, old(g.lastDc), old(g.restartsToGo), mcus)
    {
      ScanStep(s, g.lastDc, g.restartsToGo, now, g.log);
      ok := g.CountMcu(mcus[i]);
      if !ok {
        return;
      }
      now := now[1..];
    }
    NothingLeft(s, g.lastDc, g.restartsToGo);
    assert g.log + [] == g.log;
    ok := true;
  }

  lemma NothingLeft(s: Scan, last: seq<int>, toGo: nat)
    requires GoodScan(s) && |last| == |s.comps|
    ensures ScanInRange(s, last, toGo, []) && ScanTokens(s, last, toGo, []) == []
  {
  }
}
