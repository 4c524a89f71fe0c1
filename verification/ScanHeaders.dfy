// A scan header against the entropy coders: the scan that the decoder sets up from what it
// has read takes the same decisions and symbols as the one that the encoder codes.
module ScanHeaders {
  import opened Bytes
  import opened ZigzagOrder
  import opened Intervals
  import opened Markers
  import opened MarkerWriter
  import opened MarkerReader
  import opened MarkerRoundTrip
  import A = ArithBinarise
  import ArithScan
  import opened ArithMcuEncoder
  import ArithInterval
  import H = HuffSeqScan
  import opened HuffBlock
  import T = ProgTransmit

  // ---- Reading all headers of an arithmetic-coded scan --------------------------------------------------------------

  // Frame header, conditioning and scan header, as write_frame_header and write_scan_header
  // write them.
  method ArithHeadersRoundTrip(w: Writer, code: byte, precision: byte, height: nat, width: nat, comps: seq<Component>,
                               p: ScanPlan, c: Conditioning, rest: seq<byte>) returns (m: MarkerReader, r: Outcome)
    requires GoodComponents(comps) && GoodPlan(p, comps) && GoodConditioning(c) && IsSof(code)
    requires 0 < height <= 65535 && 0 < width <= 65535 && comps != [] && (p.comps == [] ==> Progressive(code))
    modifies w`out
    ensures m.Valid() && m.input == w.out + rest && |m.dcTbl| == |m.acTbl| == |comps|
    ensures r == if BoundsOrdered(p, comps, c) then Read else Failed(BadArithValue)
    ensures r == Read ==>
              && m.pos == |w.out| && m.params == (p.ss, p.se, p.ah, p.al)
              && ConditioningRead(m.arith, Defaults(), p, comps, c)
              && (SameComponents(m, p, comps) <==> forall i :: 0 <= i < |p.comps| ==> Foremost(comps, p.comps[i]))
  {
    hide Segment, FrameBytes, ScanBytes, DacBytes, GoodFrame, GoodComponents, GoodPlan, HeaderOf, SameComponents,
        Foremost, GoodConditioning, BoundsOrdered, ConditioningRead, InUse;
    ghost var before := w.out;
    var start := |w.out|;
    var written := w.EmitSof(code, precision, height, width, comps);
    ghost var f, afterSof := FrameOf(precision, height, width, comps), w.out;
    w.EmitDac(p, comps, c);
    ghost var afterDac := w.out;
    w.EmitSos(p, comps);
    ghost var dac := DacOf(p, comps, c);
    ghost var sos := [0xFF, M_SOS] + Segment(ScanBytes(HeaderOf(p, comps), Ids(comps)));
    ThreeParts(before, [0xFF, code] + Segment(FrameBytes(f)), [0xFF, M_DAC] + Segment(dac), sos, rest);
    m, r := ReadFrame(w.out + rest, start, code, before, f, ([0xFF, M_DAC] + Segment(dac)) + (sos + rest));
    assert FrameIds(m.frame) == Ids(comps);
    r := ReadDac(m, afterSof, p, comps, c, sos + rest);
    if r == Read {
      r := ReadScan(m, afterDac, p, comps, rest);
    }
  }

  lemma ThreeParts(before: seq<byte>, a: seq<byte>, b: seq<byte>, c: seq<byte>, rest: seq<byte>)
    ensures before + a + b + c + rest == before + a + (b + (c + rest))
    ensures before + a + b + c + rest == (before + a) + b + (c + rest)
  {
  }

  // ---- Arithmetic coding: the same decisions ------------------------------------------------------------------------

  // The scan that an entropy coder sets up: for each component of the scan its tables, and
  // the conditioning that belongs to them.
  function ArithScanOf(places: seq<nat>, dcTbl: seq<nat>, acTbl: seq<nat>, c: Conditioning, se: nat,
      membership: seq<nat>, interval: nat): A.Scan
    requires |dcTbl| == |acTbl| && Sized(c)
    requires forall i :: 0 <= i < |places| ==>
               places[i] < |dcTbl| && dcTbl[places[i]] < NUM_ARITH_TBLS && acTbl[places[i]] < NUM_ARITH_TBLS
  {
    A.Scan(seq(|places|, i requires 0 <= i < |places| =>
             A.Comp(dcTbl[places[i]], acTbl[places[i]], c.dcL[dcTbl[places[i]]], c.dcU[dcTbl[places[i]]],
                    c.acK[acTbl[places[i]]])),
           membership, se, interval)
  }

  // What is read of a sequential scan: the DC tables, and the AC tables if there are AC
  // coefficients, of each component, with their conditioning.
  predicate ReadFor(p: ScanPlan, comps: seq<Component>, c: Conditioning, dcTbl: seq<nat>, acTbl: seq<nat>,
      a: Conditioning)
    requires GoodComponents(comps) && GoodPlan(p, comps) && GoodConditioning(c)
  {
    && |dcTbl| == |acTbl| == |comps| && Sized(a)
    && forall i :: 0 <= i < |p.comps| ==>
         var comp := comps[p.comps[i]];
         && dcTbl[p.comps[i]] == comp.dcTbl && a.dcL[comp.dcTbl] == c.dcL[comp.dcTbl]
         && a.dcU[comp.dcTbl] == c.dcU[comp.dcTbl]
         && acTbl[p.comps[i]] == (if p.se > 0 then comp.acTbl else 0)
         && (p.se > 0 ==> a.acK[comp.acTbl] == c.acK[comp.acTbl])
  }

  // The headers of a sequential scan, once read, give all that.
  lemma HeadersGive(m: MarkerReader, p: ScanPlan, comps: seq<Component>, c: Conditioning, was: Conditioning)
    requires GoodComponents(comps) && GoodPlan(p, comps) && GoodConditioning(c) && Sized(was)
    requires p.ss == 0 && p.ah == 0 && |m.dcTbl| == |m.acTbl| == |comps|
    requires SameComponents(m, p, comps) && ConditioningRead(m.arith, was, p, comps, c)
    ensures ReadFor(p, comps, c, m.dcTbl, m.acTbl, m.arith)
  {
    forall i | 0 <= i < |p.comps|
      ensures NeedsDc(p, comps, comps[p.comps[i]].dcTbl) && (p.se > 0 ==> NeedsAc(p, comps, comps[p.comps[i]].acTbl))
    {
    }
  }

  function DcTblsOf(comps: seq<Component>): (t: seq<nat>)
    ensures |t| == |comps| && forall i :: 0 <= i < |t| ==> t[i] == comps[i].dcTbl
  {
    seq(|comps|, i requires 0 <= i < |comps| => comps[i].dcTbl)
  }

  function AcTblsOf(comps: seq<Component>): (t: seq<nat>)
    ensures |t| == |comps| && forall i :: 0 <= i < |t| ==> t[i] == comps[i].acTbl
  {
    seq(|comps|, i requires 0 <= i < |comps| => comps[i].acTbl)
  }

  // Two scans that differ at most in AC tables that neither uses.
  predicate Alike(s: A.Scan, r: A.Scan) {
    && r.membership == s.membership && r.limSe == s.limSe && r.interval == s.interval && |r.comps| == |s.comps|
    && forall i :: 0 <= i < |s.comps| ==>
         && r.comps[i].dcTbl == s.comps[i].dcTbl && r.comps[i].dcL == s.comps[i].dcL
         && r.comps[i].dcU == s.comps[i].dcU && (s.limSe > 0 ==> r.comps[i] == s.comps[i])
  }

  // The conditioning of a DC difference does not look at the AC tables.
  lemma NextPredAlike(s: A.Scan, r: A.Scan, q: A.Pred, ci: nat, dc: int)
    requires A.GoodScan(s) && A.GoodScan(r) && Alike(s, r) && A.GoodPred(s, q) && ci < |s.comps|
    ensures A.GoodPred(r, q) && A.NextPred(r, q, ci, dc) == A.NextPred(s, q, ci, dc)
  {
  }

  lemma BlockAlike(s: A.Scan, r: A.Scan, ci: nat, ctx: nat, d: int, z: seq<int>, next: seq<ArithInterval.Decision>)
    requires A.GoodScan(s) && A.GoodScan(r) && Alike(s, r) && ci < |s.comps| && A.GoodCtx(ctx) && A.InLimit(d)
    requires A.GoodBlock(z, s.limSe)
    ensures A.AcDecisions(r.comps[ci], z, s.limSe, next) == A.AcDecisions(s.comps[ci], z, s.limSe, next)
    ensures A.DcDecisions(r.comps[ci], ctx, d, next) == A.DcDecisions(s.comps[ci], ctx, d, next)
  {
  }

  lemma {:induction false} McuAlike(s: A.Scan, r: A.Scan, q: A.Pred, mcu: seq<seq<int>>,
      next: seq<ArithInterval.Decision>)
    requires A.GoodScan(s) && A.GoodScan(r) && Alike(s, r) && A.GoodPred(s, q) && |mcu| <= |s.membership|
    ensures A.GoodPred(r, q) && (A.Codable(r, q, mcu) <==> A.Codable(s, q, mcu))
    ensures A.Codable(s, q, mcu) ==>
              A.McuDecisions(r, q, mcu, next) == A.McuDecisions(s, q, mcu, next)
              && A.FinalPred(r, q, mcu) == A.FinalPred(s, q, mcu)
    decreases |mcu|
  {
    hide Alike, A.AcDecisions, A.DcDecisions, A.NextPred;
    AlikeMeans(s, r);
    if mcu != [] && A.GoodBlock(mcu[0], s.limSe) {
      var ci, z := s.membership[|s.membership| - |mcu|], mcu[0];
      NextPredAlike(s, r, q, ci, z[0]);
      McuAlike(s, r, A.NextPred(s, q, ci, z[0]), mcu[1..], next);
      if A.Codable(s, q, mcu) {
        var more := A.McuDecisions(s, A.NextPred(s, q, ci, z[0]), mcu[1..], next);
        BlockAlike(s, r, ci, q.ctx[ci], z[0] - q.last[ci], z, more);
        BlockAlike(s, r, ci, q.ctx[ci], z[0] - q.last[ci], z, A.AcDecisions(s.comps[ci], z, s.limSe, more));
      }
    }
  }

  lemma AlikeMeans(s: A.Scan, r: A.Scan)
    requires Alike(s, r)
    ensures r.membership == s.membership && r.limSe == s.limSe && r.interval == s.interval && |r.comps| == |s.comps|
  {
  }

  lemma {:induction false} PieceAlike(s: A.Scan, r: A.Scan, q: A.Pred, order: seq<nat>, mcus: seq<seq<seq<int>>>)
    requires A.GoodScan(s) && A.GoodScan(r) && Alike(s, r) && A.GoodPred(s, q) && GoodOrder(order)
    ensures A.GoodPred(r, q)
    ensures ArithScan.PieceCodable(r, q, order, mcus) <==> ArithScan.PieceCodable(s, q, order, mcus)
    ensures ArithScan.PieceCodable(s, q, order, mcus) ==>
              ArithScan.PieceDecisions(r, q, order, mcus) == ArithScan.PieceDecisions(s, q, order, mcus)
    decreases |mcus|
  {
    hide Alike, Zigzags, A.Codable, A.McuDecisions, A.FinalPred;
    AlikeMeans(s, r);
    if mcus != [] && |mcus[0]| == |s.membership| && Blocks(mcus[0]) {
      var zs := Zigzags(order, mcus[0]);
      McuAlike(s, r, q, zs, []);
      if A.Codable(s, q, zs) {
        var q1 := A.FinalPred(s, q, zs);
        PieceAlike(s, r, q1, order, mcus[1..]);
        if ArithScan.PieceCodable(s, q1, order, mcus[1..]) {
          McuAlike(s, r, q, zs, ArithScan.PieceDecisions(s, q1, order, mcus[1..]));
        }
      }
    }
  }

  lemma {:induction false} ScanAlike(s: A.Scan, r: A.Scan, q: A.Pred, order: seq<nat>, toGo: nat,
      mcus: seq<seq<seq<int>>>)
    requires A.GoodScan(s) && A.GoodScan(r) && Alike(s, r) && A.GoodPred(s, q) && GoodOrder(order)
    ensures A.GoodPred(r, q)
    ensures ArithScan.ScanCodable(r, q, order, toGo, mcus) <==> ArithScan.ScanCodable(s, q, order, toGo, mcus)
    ensures ArithScan.ScanCodable(s, q, order, toGo, mcus) ==>
              ArithScan.ScanSegments(r, q, order, toGo, mcus) == ArithScan.ScanSegments(s, q, order, toGo, mcus)
    decreases |mcus|, if IsDue(s.interval, toGo) then 1 else 0
  {
    hide Alike, ArithScan.PieceCodable, ArithScan.PieceDecisions;
    AlikeMeans(s, r);
    PieceAlike(s, r, q, order, Now(s.interval, toGo, mcus));
    var later := Later(s.interval, toGo, mcus);
    if later != [] {
      assert A.StartPred(r) == A.StartPred(s);
      ScanAlike(s, r, A.StartPred(s), order, s.interval, later);
    }
  }

  // The decoder's scan, set up from the headers it has read, takes the decisions that the
  // encoder codes, in the same segments.
  lemma ArithScanIsRead(p: ScanPlan, comps: seq<Component>, c: Conditioning, dcTbl: seq<nat>, acTbl: seq<nat>,
      a: Conditioning, membership: seq<nat>, interval: nat, order: seq<nat>, mcus: seq<seq<seq<int>>>)
    requires GoodComponents(comps) && GoodPlan(p, comps) && GoodConditioning(c) && GoodOrder(order)
    requires ReadFor(p, comps, c, dcTbl, acTbl, a)
    requires forall i :: 0 <= i < |membership| ==> membership[i] < |p.comps|
    ensures Sized(c)
    ensures var s := ArithScanOf(p.comps, DcTblsOf(comps), AcTblsOf(comps), c, p.se, membership, interval);
            var r := ArithScanOf(p.comps, dcTbl, acTbl, a, p.se, membership, interval);
            && A.GoodScan(s) && A.GoodScan(r)
            && (ArithScan.ScanCodable(r, A.StartPred(r), order, interval, mcus)
                <==> ArithScan.ScanCodable(s, A.StartPred(s), order, interval, mcus))
            && (ArithScan.ScanCodable(s, A.StartPred(s), order, interval, mcus) ==>
                  ArithScan.ScanSegments(r, A.StartPred(r), order, interval, mcus)
                  == ArithScan.ScanSegments(s, A.StartPred(s), order, interval, mcus))
  {
    hide ArithScan.ScanCodable, ArithScan.ScanSegments;
    var s := ArithScanOf(p.comps, DcTblsOf(comps), AcTblsOf(comps), c, p.se, membership, interval);
    var r := ArithScanOf(p.comps, dcTbl, acTbl, a, p.se, membership, interval);
    assert Alike(s, r) && A.StartPred(r) == A.StartPred(s);
    ScanAlike(s, r, A.StartPred(s), order, interval, mcus);
  }

  // ---- Sequential Huffman coding: the same symbols ------------------------------------------------------------------

  function HuffScanOf(places: seq<nat>, dcTbl: seq<nat>, acTbl: seq<nat>, membership: seq<nat>, order: seq<nat>,
      se: nat, interval: nat): H.Scan
    requires |dcTbl| == |acTbl| && forall i :: 0 <= i < |places| ==> places[i] < |dcTbl|
  {
    H.Scan(seq(|places|, i requires 0 <= i < |places| => H.Comp(dcTbl[places[i]], acTbl[places[i]])), membership, order,
      se, interval)
  }

  predicate AlikeHuff(s: H.Scan, r: H.Scan) {
    && r.membership == s.membership && r.order == s.order && r.se == s.se && r.interval == s.interval
    && |r.comps| == |s.comps|
    && forall i :: 0 <= i < |s.comps| ==>
         r.comps[i].dcTbl == s.comps[i].dcTbl && (s.se > 0 ==> r.comps[i] == s.comps[i])
  }

  lemma HuffBlockAlike(s: H.Scan, r: H.Scan, mcu: seq<seq<int>>, i: nat, last: int)
    requires H.GoodScan(s) && H.GoodScan(r) && AlikeHuff(s, r) && H.GoodMcu(s, mcu) && i < |mcu|
    requires InRange(H.BandOf(s, mcu, i), last)
    ensures H.BandOf(r, mcu, i) == H.BandOf(s, mcu, i)
    ensures BlockTokens(H.CompOf(r, i).dcTbl, H.CompOf(r, i).acTbl, H.BandOf(r, mcu, i), last)
         == BlockTokens(H.CompOf(s, i).dcTbl, H.CompOf(s, i).acTbl, H.BandOf(s, mcu, i), last)
  {
  }

  lemma {:induction false} HuffMcuAlike(s: H.Scan, r: H.Scan, last: seq<int>, mcu: seq<seq<int>>, i: nat)
    requires H.GoodScan(s) && H.GoodScan(r) && AlikeHuff(s, r) && H.GoodMcu(s, mcu) && |last| == |s.comps|
    ensures |r.comps| == |s.comps| && H.GoodMcu(r, mcu)
    ensures H.McuInRange(r, last, mcu, i) <==> H.McuInRange(s, last, mcu, i)
    ensures H.McuInRange(s, last, mcu, i) ==> H.McuTokens(r, last, mcu, i) == H.McuTokens(s, last, mcu, i)
    ensures H.LastAfter(r, last, mcu, i) == H.LastAfter(s, last, mcu, i)
    decreases |mcu| - i
  {
    hide InRange, BlockTokens;
    if i < |mcu| {
      HuffMcuAlike(s, r, last[s.membership[i] := mcu[i][0]], mcu, i + 1);
      if InRange(H.BandOf(s, mcu, i), last[s.membership[i]]) {
        HuffBlockAlike(s, r, mcu, i, last[s.membership[i]]);
      }
    }
  }

  lemma {:induction false} HuffScanAlike(s: H.Scan, r: H.Scan, last: seq<int>, toGo: nat, mcus: seq<seq<seq<int>>>)
    requires H.GoodScan(s) && H.GoodScan(r) && AlikeHuff(s, r) && |last| == |s.comps|
    requires forall i :: 0 <= i < |mcus| ==> H.GoodMcu(s, mcus[i])
    ensures |r.comps| == |s.comps| && forall i :: 0 <= i < |mcus| ==> H.GoodMcu(r, mcus[i])
    ensures H.ScanInRange(r, last, toGo, mcus) <==> H.ScanInRange(s, last, toGo, mcus)
    ensures H.ScanInRange(s, last, toGo, mcus) ==>
              H.ScanTokens(r, last, toGo, mcus) == H.ScanTokens(s, last, toGo, mcus)
    decreases |mcus|
  {
    hide AlikeHuff, H.McuInRange, H.McuTokens, H.LastAfter;
    HuffAlikeMeans(s, r);
    if mcus != [] {
      var p := H.Predictions(s, last, toGo);
      HuffMcuAlike(s, r, p, mcus[0], 0);
      HuffScanAlike(s, r, H.LastAfter(s, p, mcus[0], 0), H.ToGoAfter(s, toGo), mcus[1..]);
    }
  }

  lemma HuffAlikeMeans(s: H.Scan, r: H.Scan)
    requires AlikeHuff(s, r)
    ensures r.membership == s.membership && r.se == s.se && r.interval == s.interval && |r.comps| == |s.comps|
  {
  }

  // The decoder's scan, set up from the header it has read, takes the symbols of the
  // encoder's, each from the table of the same number.
  lemma HuffScanIsRead(m: MarkerReader, p: ScanPlan, comps: seq<Component>, membership: seq<nat>, order: seq<nat>,
      interval: nat, mcus: seq<seq<seq<int>>>)
    requires GoodComponents(comps) && GoodPlan(p, comps) && p.ss == 0 && p.ah == 0
    requires |m.dcTbl| == |m.acTbl| == |comps| && SameComponents(m, p, comps)
    requires var s := HuffScanOf(p.comps, DcTblsOf(comps), AcTblsOf(comps), membership, order, p.se, interval);
             H.GoodScan(s) && forall i :: 0 <= i < |mcus| ==> H.GoodMcu(s, mcus[i])
    ensures var s := HuffScanOf(p.comps, DcTblsOf(comps), AcTblsOf(comps), membership, order, p.se, interval);
            var r := HuffScanOf(m.curComp, m.dcTbl, m.acTbl, membership, order, p.se, interval);
            && H.GoodScan(r) && (forall i :: 0 <= i < |mcus| ==> H.GoodMcu(r, mcus[i]))
            && (H.ScanInRange(r, H.ZeroDc(r), interval, mcus) <==> H.ScanInRange(s, H.ZeroDc(s), interval, mcus))
            && (H.ScanInRange(s, H.ZeroDc(s), interval, mcus) ==>
                  H.ScanTokens(r, H.ZeroDc(r), interval, mcus) == H.ScanTokens(s, H.ZeroDc(s), interval, mcus))
  {
    hide H.ScanInRange, H.ScanTokens, H.GoodScan, H.GoodMcu, AlikeHuff;
    var s := HuffScanOf(p.comps, DcTblsOf(comps), AcTblsOf(comps), membership, order, p.se, interval);
    var r := HuffScanOf(m.curComp, m.dcTbl, m.acTbl, membership, order, p.se, interval);
    ReadAlike(m, p, comps, membership, order, interval);
    HuffScanAlike(s, r, H.ZeroDc(s), interval, mcus);
  }

  lemma ReadAlike(m: MarkerReader, p: ScanPlan, comps: seq<Component>, membership: seq<nat>, order: seq<nat>,
      interval: nat)
    requires GoodComponents(comps) && GoodPlan(p, comps) && p.ss == 0 && p.ah == 0
    requires |m.dcTbl| == |m.acTbl| == |comps| && SameComponents(m, p, comps)
    ensures var s := HuffScanOf(p.comps, DcTblsOf(comps), AcTblsOf(comps), membership, order, p.se, interval);
            var r := HuffScanOf(m.curComp, m.dcTbl, m.acTbl, membership, order, p.se, interval);
            AlikeHuff(s, r) && H.ZeroDc(r) == H.ZeroDc(s) && (H.GoodScan(s) ==> H.GoodScan(r))
  {
  }

  // ---- Progressive Huffman coding: the same tables ------------------------------------------------------------------

  // The tables that a scan of a script uses are those that its header tells the reader.
  lemma ScriptTablesAreRead(m: MarkerReader, p: ScanPlan, comps: seq<Component>, src: T.Source, part: T.Part)
    requires GoodComponents(comps) && GoodPlan(p, comps) && |m.dcTbl| == |m.acTbl| == |comps|
    requires SameComponents(m, p, comps)
    requires T.GoodSource(src) && T.ScanOk(|src.comps|, part.info) && |src.comps| == |comps|
    requires forall i :: 0 <= i < |comps| ==>
               src.comps[i].dcTbl == comps[i].dcTbl && src.comps[i].acTbl == comps[i].acTbl
    requires p.comps == T.IndexOf(|src.comps|, part.info)
    requires (p.ss, p.se, p.ah, p.al) == (part.info.ss, part.info.se, part.info.ah, part.info.al)
    ensures |m.curComp| > 0
    ensures var used := T.TablesUsed(src, part);
            && (p.ss > 0 ==> used == [m.acTbl[m.curComp[0]]])
            && (p.ss == 0 && p.ah == 0 ==>
                  |used| == |m.curComp| && forall i :: 0 <= i < |used| ==> used[i] == m.dcTbl[m.curComp[i]])
            && (p.ss == 0 && p.ah > 0 ==> used == [])
  {
    hide T.GoodSource;
    T.SourceHasComps(src);
  }
}
