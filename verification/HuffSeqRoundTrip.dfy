// A whole sequential Huffman scan: what encode_mcu_huff and finish_pass_huff write,
// with its restart markers, decode_mcu reads back.
module HuffSeqRoundTrip {
  import opened MarkerSearch
  import opened Bytes
  import opened BitString
  import opened EntropySegment
  import opened CoefBlocks
  import opened Kraft
  import opened HuffSpace
  import opened HuffGen
  import opened HuffCode
  import opened HuffDerived
  import opened HuffBitWriter
  import opened HuffBitReader
  import opened HuffTokens
  import opened HuffSegments
  import opened HuffSeqScan
  import opened HuffSeqDecoder
  import opened HuffMcuDecoder

  // ---- MCU by MCU --------------------------------------------------------------------------------------------------

  // The symbols already read from the current interval only stand in front.
  lemma {:induction false} SegmentsCur(s: Scan, last: seq<int>, toGo: nat, cur: seq<Token>, mcus: seq<seq<seq<int>>>)
    requires GoodScan(s) && GoodMcus(s, mcus) && |last| == |s.comps| && ScanInRange(s, last, toGo, mcus)
    ensures var a, b := Segments(s, last, toGo, cur, mcus), Segments(s, last, toGo, [], mcus);
            a != [] && b != [] && a[0] == cur + b[0] && a[1..] == b[1..]
    decreases |mcus|
  {
    hide McuInRange, McuTokens, LastAfter;
    if mcus != [] {
      var p := Predictions(s, last, toGo);
      var toks, next := McuTokens(s, p, mcus[0], 0), LastAfter(s, p, mcus[0], 0);
      if !(s.interval > 0 && toGo == 0) {
        SegmentsCur(s, next, ToGoAfter(s, toGo), cur + toks, mcus[1..]);
        SegmentsCur(s, next, ToGoAfter(s, toGo), [] + toks, mcus[1..]);
        var r := Segments(s, next, ToGoAfter(s, toGo), [], mcus[1..]);
        assert (cur + toks) + r[0] == cur + (([] + toks) + r[0]);
      } else {
        assert cur + [] == cur;
      }
    } else {
      assert cur + [] == cur;
    }
  }

  // Between two MCUs: the input holds what is left of the scan.
  ghost predicate Between(d: BitState, input: seq<byte>, c: Tables, s: Scan, enc: seq<int>, toGo: nat, num: nat,
      mcus: seq<seq<seq<int>>>) {
    && GoodScan(s) && GoodTables(c) && GoodMcus(s, mcus) && |enc| == |s.comps|
    && ScanWritable(s, c, enc, toGo, mcus)
    && (toGo == 0 || s.interval > 0)
    && !d.insufficient && Holds(input, d, c, Segments(s, enc, toGo, [], mcus), num)
  }

  // No restart is due: the MCU's bits are next.
  lemma McuIsNext(d: BitState, input: seq<byte>, c: Tables, s: Scan, enc: seq<int>, toGo: nat, num: nat,
      mcus: seq<seq<seq<int>>>)
    returns (tail: seq<bool>)
    requires Between(d, input, c, s, enc, toGo, num, mcus) && mcus != [] && !(s.interval > 0 && toGo == 0)
    ensures McuWritable(s, c, enc, mcus[0], 0)
    ensures Coming(input, d) == BitsOf(c, McuTokens(s, enc, mcus[0], 0)) + tail
    ensures forall d': BitState ::
        !d'.insufficient && Coming(input, d') == tail && AheadOf(input, |input|, d') == AheadOf(input, |input|, d) ==>
        Between(d', input, c, s, LastAfter(s, enc, mcus[0], 0), ToGoAfter(s, toGo), num, mcus[1..])
  {
    hide McuInRange, McuTokens, LastAfter, GoodTables, TokensCoded, BitsOf, Coming, Bin, MarkerAfter;
    var toks, next := McuTokens(s, enc, mcus[0], 0), LastAfter(s, enc, mcus[0], 0);
    ScanStepWritable(s, c, enc, toGo, mcus);
    SegmentsCur(s, next, ToGoAfter(s, toGo), [] + toks, mcus[1..]);
    var segs, rest := Segments(s, enc, toGo, [], mcus), Segments(s, next, ToGoAfter(s, toGo), [], mcus[1..]);
    assert [] + toks == toks;
    assert segs[0] == toks + rest[0];
    SegmentsOk(s, next, ToGoAfter(s, toGo), mcus[1..]);
    BitsOfConcat(c, toks, rest[0]);
    var n :| 0 <= n < 8 && Coming(input, d) == BitsOf(c, segs[0]) + Ones(n);
    tail := BitsOf(c, rest[0]) + Ones(n);
    assert Coming(input, d) == BitsOf(c, toks) + tail;
  }

  lemma {:induction false} SegmentsOk(s: Scan, last: seq<int>, toGo: nat, mcus: seq<seq<seq<int>>>)
    requires GoodScan(s) && GoodMcus(s, mcus) && |last| == |s.comps| && ScanInRange(s, last, toGo, mcus)
    ensures Segments(s, last, toGo, [], mcus) != [] && TokensOk(Segments(s, last, toGo, [], mcus)[0])
    decreases |mcus|
  {
    hide McuInRange, McuTokens, LastAfter, TokenOk;
    SegmentsCur(s, last, toGo, [], mcus);
    if mcus != [] {
      var p := Predictions(s, last, toGo);
      var toks, next := McuTokens(s, p, mcus[0], 0), LastAfter(s, p, mcus[0], 0);
      if !(s.interval > 0 && toGo == 0) {
        SegmentsOk(s, next, ToGoAfter(s, toGo), mcus[1..]);
        SegmentsCur(s, next, ToGoAfter(s, toGo), [] + toks, mcus[1..]);
        assert [] + toks == toks;
      }
    }
  }

  // A restart is due: its marker is next, and after it the MCU starts an interval.
  lemma RestartIsNext(d: BitState, input: seq<byte>, c: Tables, s: Scan, enc: seq<int>, num: nat,
      mcus: seq<seq<seq<int>>>)
    requires Between(d, input, c, s, enc, 0, num, mcus) && mcus != [] && s.interval > 0
    ensures var f := AheadOf(input, |input|, d);
            && f.Marker? && f.code == RST0 + num % 8
            && forall d': BitState :: d'.pos == f.next && d'.bitsLeft == 0 && d'.marker == 0 && !d'.insufficient
                 ==> Between(d', input, c, s, ZeroDc(s), s.interval, num + 1, mcus)
  {
    hide McuInRange, McuTokens, LastAfter, GoodTables, TokensCoded, BitsOf, MarkerAfter, Segment;
    var toks, next := McuTokens(s, ZeroDc(s), mcus[0], 0), LastAfter(s, ZeroDc(s), mcus[0], 0);
    assert Predictions(s, enc, 0) == ZeroDc(s) == Predictions(s, ZeroDc(s), s.interval);
    ScanStepWritable(s, c, enc, 0, mcus);
    ScanStepWritable(s, c, ZeroDc(s), s.interval, mcus);
    assert [] + toks == toks;
    var segs := Segments(s, enc, 0, [], mcus);
    assert segs == [[]] + Segments(s, next, ToGoAfter(s, 0), toks, mcus[1..]);
    SegmentsCur(s, next, ToGoAfter(s, 0), toks, mcus[1..]);
    assert segs[1..] == Segments(s, ZeroDc(s), s.interval, [], mcus);
    var f := AheadOf(input, |input|, d);
    forall d': BitState | d'.pos == f.next && d'.bitsLeft == 0 && d'.marker == 0 && !d'.insufficient
      ensures Between(d', input, c, s, ZeroDc(s), s.interval, num + 1, mcus)
    {
      assert Coming(input, d') == Coming(input, StartAt(f.next));
      HoldsSame(input, StartAt(f.next), d', c, segs[1..], num + 1);
    }
  }

  // decode_mcu, with all of the input at hand: the next MCU of the scan is read back.
  method DecodeMcu(dec: HuffDecoder, mcu: seq<array<int>>, ghost c: Tables, ghost enc: seq<int>, ghost num: nat,
      ghost mcus: seq<seq<seq<int>>>)
    returns (ok: bool)
    requires dec.Valid() && dec.avail == |dec.input| && |mcu| == |dec.plan.limits| && DistinctBlocks(mcu)
    requires forall i :: 0 <= i < |mcu| ==> Cleared(mcu[i][..])
    requires Between(dec.state, dec.input, c, dec.plan.scan, enc, dec.restartsToGo, num, mcus) && mcus != []
    requires num % 8 == dec.nextRestartNum && SameTables(dec.plan, c) && Follows(dec.plan, dec.lastDc, enc)
        && JcoefMcu(mcus[0])
    modifies dec, mcu
    ensures dec.Valid() && ok && dec.avail == |dec.input|
    ensures var s, toGo := dec.plan.scan, old(dec.restartsToGo);
            var p, n := Predictions(s, enc, toGo), if s.interval > 0 && toGo == 0 then num + 1 else num;
            && |enc| == |s.comps| && GoodMcus(s, mcus)
            && dec.restartsToGo == ToGoAfter(s, toGo) && n % 8 == dec.nextRestartNum
            && Follows(dec.plan, dec.lastDc, LastAfter(s, p, mcus[0], 0))
            && Between(dec.state, dec.input, c, s, LastAfter(s, p, mcus[0], 0), dec.restartsToGo, n, mcus[1..])
            && forall i :: 0 <= i < |mcu| ==> Delivered(s.order, s.se, dec.plan.limits[i], mcu[i][..], mcus[0][i])
  {
    hide Between, Coming, AheadOf, SameTables, Follows, Delivered, LastAfter, McuTokens, McuInRange, GoodPlan, JcoefMcu,
        TokensCoded;
    BetweenMeans(dec.state, dec.input, c, dec.plan.scan, enc, dec.restartsToGo, num, mcus);
    ghost var e, n := enc, num;
    if dec.plan.scan.interval != 0 && dec.restartsToGo == 0 {
      RestartIsNext(dec.state, dec.input, c, dec.plan.scan, enc, num, mcus);
      var r := dec.ProcessRestart();
      if r != Restarted {
        return false;
      }
      e, n := ZeroDc(dec.plan.scan), num + 1;
      FollowsZero(dec.plan);
    }
    ghost var tail := McuIsNext(dec.state, dec.input, c, dec.plan.scan, e, dec.restartsToGo, n, mcus);
    BetweenMeans(dec.state, dec.input, c, dec.plan.scan, e, dec.restartsToGo, n, mcus);
    ok := dec.DecodeBlocks(mcu, true, c, e, mcus[0], tail);
    if dec.plan.scan.interval != 0 {
      dec.restartsToGo := dec.restartsToGo - 1;
    }
  }

  lemma BetweenMeans(d: BitState, input: seq<byte>, c: Tables, s: Scan, enc: seq<int>, toGo: nat, num: nat,
      mcus: seq<seq<seq<int>>>)
    requires Between(d, input, c, s, enc, toGo, num, mcus)
    ensures GoodScan(s) && GoodTables(c) && GoodMcus(s, mcus) && |enc| == |s.comps| && !d.insufficient
        && AheadOf(input, |input|, d).Marker?
    ensures mcus != [] ==> GoodMcu(s, mcus[0])
    ensures s.interval == 0 ==> toGo == 0
  {
    hide Coming, AheadOf;
  }

  lemma PlanSizes(p: Plan)
    requires GoodPlan(p)
    ensures |p.limits| == |p.scan.membership|
  {
  }

  lemma FollowsZero(p: Plan)
    requires GoodPlan(p)
    ensures Follows(p, ZeroDc(p.scan), ZeroDc(p.scan))
  {
  }

  // ---- The whole scan ----------------------------------------------------------------------------------------------

  predicate JcoefMcus(mcus: seq<seq<seq<int>>>) {
    forall i :: 0 <= i < |mcus| ==> JcoefMcu(mcus[i])
  }

  predicate McuDelivered(s: Scan, limits: seq<nat>, got: seq<seq<int>>, want: seq<seq<int>>)
    requires GoodScan(s)
  {
    && |got| == |want| == |limits|
    && forall i :: 0 <= i < |got| ==> Delivered(s.order, s.se, limits[i], got[i], want[i])
  }

  method DecodeScan(dec: HuffDecoder, n: nat, ghost c: Tables, ghost mcus: seq<seq<seq<int>>>)
      returns (ok: bool, got: seq<seq<seq<int>>>)
    requires dec.Valid() && dec.avail == |dec.input| && |mcus| == n && JcoefMcus(mcus) && SameTables(dec.plan, c)
    requires dec.lastDc == ZeroDc(dec.plan.scan) && dec.nextRestartNum == 0
        && dec.restartsToGo == dec.plan.scan.interval
    requires Between(dec.state, dec.input, c, dec.plan.scan, ZeroDc(dec.plan.scan), dec.restartsToGo, 0, mcus)
    modifies dec
    ensures ok && |got| == n
    ensures forall i :: 0 <= i < n ==> McuDelivered(dec.plan.scan, dec.plan.limits, got[i], mcus[i])
  {
    hide Between, SameTables, Follows, Delivered, LastAfter, McuTokens, McuInRange, GoodPlan, JcoefMcu, TokensCoded;
    ghost var now, enc, num := mcus, ZeroDc(dec.plan.scan), 0;
    FollowsZero(dec.plan);
    BetweenMeans(dec.state, dec.input, c, dec.plan.scan, enc, dec.restartsToGo, num, now);
    got, ok := [], true;
    for i := 0 to n
      invariant dec.Valid() && ok && dec.avail == |dec.input| && |got| == i && now == mcus[i..]
      invariant |enc| == |dec.plan.scan.comps| && Follows(dec.plan, dec.lastDc, enc)
      invariant Between(dec.state, dec.input, c, dec.plan.scan, enc, dec.restartsToGo, num, now)
          && num % 8 == dec.nextRestartNum
      invariant forall j :: 0 <= j < i ==> McuDelivered(dec.plan.scan, dec.plan.limits, got[j], mcus[j])
    {
      assert now[0] == mcus[i];
      BetweenMeans(dec.state, dec.input, c, dec.plan.scan, enc, dec.restartsToGo, num, now);
      var blocks := NewBlocks(|dec.plan.limits|);
      ghost var toGo := dec.restartsToGo;
      ok := DecodeMcu(dec, blocks, c, enc, num, now);
      var one := Contents(blocks);
      PlanSizes(dec.plan);
      assert McuDelivered(dec.plan.scan, dec.plan.limits, one, mcus[i]);
      got := got + [one];
      enc := LastAfter(dec.plan.scan, Predictions(dec.plan.scan, enc, toGo), now[0], 0);
      num := if dec.plan.scan.interval > 0 && toGo == 0 then num + 1 else num;
      now := now[1..];
    }
  }

  // The tables that the components of a scan use, as they stand in the file. AC tables
  // are not looked at when there are no AC coefficients.
  predicate UsableTables(s: Scan, dcT: seq<HuffTbl>, acT: seq<HuffTbl>)
    requires GoodScan(s)
  {
    && |dcT| == |acT| == NUM_HUFF_TBLS
    && forall ci :: 0 <= ci < |s.comps| ==>
         && Usable(true, dcT[s.comps[ci].dcTbl])
         && (s.se > 0 ==> Usable(false, acT[s.comps[ci].acTbl]))
  }

  predicate Usable(isDC: bool, t: HuffTbl) { WellFormed(t) && EncoderAccepts(isDC, t) }

  // The derived tables are for those tables.
  ghost predicate PairedInUse(s: Scan, dcT: seq<HuffTbl>, acT: seq<HuffTbl>, c: Tables)
    requires GoodScan(s) && |dcT| == |acT| == NUM_HUFF_TBLS
  {
    && GoodTables(c)
    && forall ci :: 0 <= ci < |s.comps| ==>
         && Paired(dcT[s.comps[ci].dcTbl], c.dc[s.comps[ci].dcTbl])
         && (s.se > 0 ==> Paired(acT[s.comps[ci].acTbl], c.ac[s.comps[ci].acTbl]))
  }

  // A table without codes stands for one that is not made.
  function NoCodes(): (t: HuffTbl)
  {
    HuffTbl(seq(MAX_BITS + 1, _ => 0), seq(REAL, _ => 0))
  }

  lemma NoCodesUsable(isDC: bool)
    ensures Usable(isDC, NoCodes())
  {
    var bits := NoCodes().bits;
    SumZero(bits);
    forall m | 0 <= m < |bits| ensures Space(bits, m) < Pow2(m) { NoSpace(bits, m); }
  }

  // The tables in use, and none for the others.
  method TablesInUse(s: Scan, isDC: bool, ts: seq<HuffTbl>) returns (es: seq<HuffTbl>)
    requires GoodScan(s) && |ts| == NUM_HUFF_TBLS
    requires isDC || s.se > 0 ==>
        forall ci :: 0 <= ci < |s.comps| ==> Usable(isDC, ts[if isDC then s.comps[ci].dcTbl else s.comps[ci].acTbl])
    ensures |es| == NUM_HUFF_TBLS && forall i :: 0 <= i < NUM_HUFF_TBLS ==> Usable(isDC, es[i])
    ensures isDC || s.se > 0 ==> forall ci :: 0 <= ci < |s.comps| ==>
        var tbl := if isDC then s.comps[ci].dcTbl else s.comps[ci].acTbl; es[tbl] == ts[tbl]
  {
    hide Usable, NoCodes;
    NoCodesUsable(isDC);
    es := seq(NUM_HUFF_TBLS, _ => NoCodes());
    if isDC || s.se > 0 {
      for ci := 0 to |s.comps|
        invariant |es| == NUM_HUFF_TBLS && forall i :: 0 <= i < NUM_HUFF_TBLS ==> Usable(isDC, es[i])
        invariant forall k :: 0 <= k < ci ==>
            var tbl := if isDC then s.comps[k].dcTbl else s.comps[k].acTbl; es[tbl] == ts[tbl]
      {
        var tbl := if isDC then s.comps[ci].dcTbl else s.comps[ci].acTbl;
        es := es[tbl := ts[tbl]];
      }
    }
  }

  ghost predicate PairedUpTo(ts: seq<HuffTbl>, cs: seq<CTbl>, n: nat) {
    |ts| >= n && |cs| == n && forall i :: 0 <= i < n ==> Paired(ts[i], cs[i]) && GoodCTbl(cs[i])
  }

  method MakeEncoderTables(isDC: bool, ts: seq<HuffTbl>) returns (cs: seq<CTbl>)
    requires |ts| == NUM_HUFF_TBLS
        && forall i :: 0 <= i < NUM_HUFF_TBLS ==> Usable(isDC, ts[i])
    ensures PairedUpTo(ts, cs, NUM_HUFF_TBLS)
  {
    hide EncoderAccepts, EncodesWith, GoodCounts, GoodCTbl;
    cs := [];
    for i := 0 to NUM_HUFF_TBLS
      invariant PairedUpTo(ts, cs, i)
    {
      var r := MakeCDerivedTbl(isDC, ts[i]);
      AcceptedIsPaired(isDC, ts[i], r.value);
      cs := cs + [r.value];
    }
  }

  lemma AcceptedIsPaired(isDC: bool, t: HuffTbl, c: CTbl)
    requires WellFormed(t) && EncoderAccepts(isDC, t) && EncodesWith(t, c)
    ensures Paired(t, c) && GoodCTbl(c)
  {
    PairedIsGood(t, c);
  }

  predicate DecodersFor(isDC: bool, ts: seq<HuffTbl>, ds: seq<DTbl>, n: nat) {
    |ts| >= n && |ds| == n && forall i ::
        0 <= i < n ==> ds[i].pub == ts[i] && DecodesWith(ts[i], ds[i]) && (isDC ==> DcTable(ts[i]))
  }

  method MakeDecoderTables(isDC: bool, ts: seq<HuffTbl>) returns (ds: seq<DTbl>)
    requires |ts| == NUM_HUFF_TBLS
        && forall i :: 0 <= i < NUM_HUFF_TBLS ==> Usable(isDC, ts[i])
    ensures DecodersFor(isDC, ts, ds, NUM_HUFF_TBLS)
  {
    hide EncoderAccepts, DecoderAccepts, WellFormed, GoodCounts, Bounds, Looks, DcTable;
    ds := [];
    for i := 0 to NUM_HUFF_TBLS
      invariant DecodersFor(isDC, ts, ds, i)
    {
      EncoderTableDecodes(isDC, ts[i]);
      var r := MakeDDerivedTbl(isDC, ts[i]);
      if isDC { AcceptedIsDcTable(ts[i]); }
      ds := ds + [r.value];
    }
  }

  lemma AcceptedIsDcTable(t: HuffTbl)
    requires WellFormed(t) && DecoderAccepts(true, t)
    ensures DcTable(t)
  {
    hide Sum, LeavesOnesFree;
  }

  predicate LimitsFit(s: Scan, limits: seq<nat>) {
    && |limits| == |s.membership|
    && (forall i :: 0 <= i < |limits| ==> limits[i] <= s.se + 1)
    && (forall i, j ::
        0 <= i < j < |limits| && s.membership[i] == s.membership[j] ==> (limits[i] == 0 <==> limits[j] == 0))
  }

  method WriteScan(s: Scan, tables: Tables, mcus: seq<seq<seq<int>>>, dest: seq<byte>)
    returns (written: bool, out: seq<byte>, ghost segs: seq<seq<Token>>)
    requires GoodScan(s) && GoodTables(tables) && GoodMcus(s, mcus)
    ensures written <==> ScanWritable(s, tables, ZeroDc(s), s.interval, mcus)
    ensures written ==> Finished(tables, dest, segs, out) && segs == Segments(s, ZeroDc(s), s.interval, [], mcus)
  {
    hide McuInRange, McuTokens, LastAfter, TokensCoded, Finished, Segments, ScanInRange, ScanTokens, GoodTables;
    out, segs := dest, [];
    var enc := new HuffEncoder(s, tables, dest);
    written := EncodeMcus(enc, mcus);
    if !written {
      return;
    }
    segs := enc.FinishPass();
    out := enc.w.out;
  }

  method ReadScan(plan: Plan, input: seq<byte>, pos: nat, ghost c: Tables, ghost mcus: seq<seq<seq<int>>>, n: nat)
    returns (got: seq<seq<seq<int>>>)
    requires GoodPlan(plan) && SameTables(plan, c) && GoodMcus(plan.scan, mcus) && JcoefMcus(mcus) && |mcus| == n
        && pos <= |input|
    requires ScanWritable(plan.scan, c, ZeroDc(plan.scan), plan.scan.interval, mcus)
    requires Holds(input, StartAt(pos), c, Segments(plan.scan, ZeroDc(plan.scan), plan.scan.interval, [], mcus), 0)
    ensures |got| == n && forall i :: 0 <= i < n ==> McuDelivered(plan.scan, plan.limits, got[i], mcus[i])
  {
    hide Holds, ScanWritable, Segments, McuDelivered, Between, GoodMcu, JcoefMcu;
    var dec := new HuffDecoder(plan, input, |input|, pos);
    StartBetween(dec.state, input, c, plan.scan, mcus);
    var ok;
    ok, got := DecodeScan(dec, n, c, mcus);
  }

  lemma PlanFits(s: Scan, limits: seq<nat>, dcT: seq<HuffTbl>, acT: seq<HuffTbl>, dcD: seq<DTbl>, acD: seq<DTbl>,
      c: Tables)
    requires GoodScan(s) && LimitsFit(s, limits)
    requires DecodersFor(true, dcT, dcD, NUM_HUFF_TBLS) && DecodersFor(false, acT, acD, NUM_HUFF_TBLS)
    requires PairedUpTo(dcT, c.dc, NUM_HUFF_TBLS) && PairedUpTo(acT, c.ac, NUM_HUFF_TBLS)
    ensures GoodPlan(Plan(s, dcD, acD, limits)) && SameTables(Plan(s, dcD, acD, limits), c)
  {
    hide Paired, DecodesWith, DcTable, GoodCTbl;
  }

  // The round trip, for any tables both sides accept, any restart interval and any
  // choice of the coefficients wanted: the scan is written unless a coefficient is out
  // of range or its symbol has no code, and then every coefficient wanted comes back.
  method ScanRoundTrip(s: Scan, limits: seq<nat>, dcT: seq<HuffTbl>, acT: seq<HuffTbl>, mcus: seq<seq<seq<int>>>,
                       dest: seq<byte>, marker: byte, rest: seq<byte>)
    returns (written: bool, out: seq<byte>, got: seq<seq<seq<int>>>, ghost c: Tables, ghost segs: seq<seq<Token>>)
    requires GoodScan(s) && LimitsFit(s, limits) && UsableTables(s, dcT, acT) && GoodMcus(s, mcus) && JcoefMcus(mcus)
    requires 0 < marker < 0xFF
    ensures PairedInUse(s, dcT, acT, c)
    ensures written <==> ScanWritable(s, c, ZeroDc(s), s.interval, mcus)
    ensures written ==> Finished(c, dest, segs, out) && segs == Segments(s, ZeroDc(s), s.interval, [], mcus)
    ensures written ==> Holds(out + ([0xFF, marker] + rest), StartAt(|dest|), c, segs, 0)
    ensures written ==> |got| == |mcus| && forall i :: 0 <= i < |mcus| ==> McuDelivered(s, limits, got[i], mcus[i])
  {
    hide EncoderAccepts, Paired, DecodesWith, DcTable, Finished, Holds, ScanWritable, WellFormed, Segments, GoodCTbl,
        JcoefMcus, McuDelivered,
      GoodMcus, GoodPlan, SameTables, LimitsFit, Usable;
    got := [];
    var dcE := TablesInUse(s, true, dcT);
    var acE := TablesInUse(s, false, acT);
    var dc := MakeEncoderTables(true, dcE);
    var ac := MakeEncoderTables(false, acE);
    var tables := Tables(dc, ac);
    c := tables;
    written, out, segs := WriteScan(s, tables, mcus, dest);
    if !written {
      return;
    }
    FinishedHolds(c, dest, segs, out, marker, rest);
    DestIsPrefix(c, dest, segs, out);
    var dcD := MakeDecoderTables(true, dcE);
    var acD := MakeDecoderTables(false, acE);
    PlanFits(s, limits, dcE, acE, dcD, acD, c);
    got := ReadScan(Plan(s, dcD, acD, limits), out + ([0xFF, marker] + rest), |dest|, c, mcus, |mcus|);
  }

  lemma StartBetween(d: BitState, input: seq<byte>, c: Tables, s: Scan, mcus: seq<seq<seq<int>>>)
    requires GoodScan(s) && GoodTables(c) && GoodMcus(s, mcus) && ScanWritable(s, c, ZeroDc(s), s.interval, mcus)
    requires !d.insufficient && Holds(input, d, c, Segments(s, ZeroDc(s), s.interval, [], mcus), 0)
    ensures Between(d, input, c, s, ZeroDc(s), s.interval, 0, mcus)
  {
    hide Holds, ScanInRange, TokensCoded;
  }
}
