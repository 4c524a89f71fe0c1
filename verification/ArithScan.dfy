// A whole arithmetic-coded sequential scan: every block that goes through encode_mcu and
// finish_pass comes back from decode_mcu, for any restart interval.
module ArithScan {
  import opened Bytes
  import opened Aritab
  import opened ArithInterval
  import opened EntropySegment
  import opened MarkerSearch
  import opened Intervals
  import opened ArithBinarise
  import opened ArithBins
  import opened ArithSegments
  import opened ZigzagOrder
  import opened CoefBlocks
  import opened ArithMcuEncoder
  import opened ArithMcuDecoder
  import opened ArithCodec
  import E = ArithEncoder
  import D = ArithDecoder

  // ---- The MCUs of one interval ------------------------------------------------------------------------------------

  // Every MCU is made of whole blocks and within the code's limits, given the
  // predictions that the MCUs before it leave.
  predicate PieceCodable(s: Scan, p: Pred, order: seq<nat>, mcus: seq<seq<seq<int>>>)
    requires GoodScan(s) && GoodPred(s, p) && GoodOrder(order)
    decreases |mcus|
  {
    mcus == [] || (
      && |mcus[0]| == |s.membership| && Blocks(mcus[0]) && Codable(s, p, Zigzags(order, mcus[0]))
      && PieceCodable(s, FinalPred(s, p, Zigzags(order, mcus[0])), order, mcus[1..]))
  }

  function PieceDecisions(s: Scan, p: Pred, order: seq<nat>, mcus: seq<seq<seq<int>>>): (ds: seq<Decision>)
    requires GoodScan(s) && GoodPred(s, p) && GoodOrder(order) && PieceCodable(s, p, order, mcus)
    decreases |mcus|
  {
    if mcus == [] then []
    else McuDecisions(s, p, Zigzags(order, mcus[0]),
           PieceDecisions(s, FinalPred(s, p, Zigzags(order, mcus[0])), order, mcus[1..]))
  }

  // ---- The scan ----------------------------------------------------------------------------------------------------

  // toGo MCUs are left of the interval at hand; after a restart marker the predictions
  // start again.
  predicate ScanCodable(s: Scan, p: Pred, order: seq<nat>, toGo: nat, mcus: seq<seq<seq<int>>>)
    requires GoodScan(s) && GoodPred(s, p) && GoodOrder(order)
    decreases |mcus|, if IsDue(s.interval, toGo) then 1 else 0
  {
    var later := Later(s.interval, toGo, mcus);
    && PieceCodable(s, p, order, Now(s.interval, toGo, mcus))
    && (later == [] || ScanCodable(s, StartPred(s), order, s.interval, later))
  }

  // The decisions of each segment.
  function ScanSegments(s: Scan, p: Pred, order: seq<nat>, toGo: nat, mcus: seq<seq<seq<int>>>):
      (segs: seq<seq<Decision>>)
    requires GoodScan(s) && GoodPred(s, p) && GoodOrder(order) && ScanCodable(s, p, order, toGo, mcus)
    ensures segs != []
    decreases |mcus|, if IsDue(s.interval, toGo) then 1 else 0
  {
    var later := Later(s.interval, toGo, mcus);
    [PieceDecisions(s, p, order, Now(s.interval, toGo, mcus))]
    + if later == [] then [] else ScanSegments(s, StartPred(s), order, s.interval, later)
  }

  // The segments behind the one at hand.
  function LaterSegments(s: Scan, p: Pred, order: seq<nat>, toGo: nat, mcus: seq<seq<seq<int>>>):
      (segs: seq<seq<Decision>>)
    requires GoodScan(s) && GoodPred(s, p) && GoodOrder(order) && ScanCodable(s, p, order, toGo, mcus)
  {
    ScanSegments(s, p, order, toGo, mcus)[1..]
  }

  // What is left of the segment at hand.
  function RestOfSegment(s: Scan, p: Pred, order: seq<nat>, toGo: nat, mcus: seq<seq<seq<int>>>):
      (ds: seq<Decision>)
    requires GoodScan(s) && GoodPred(s, p) && GoodOrder(order) && ScanCodable(s, p, order, toGo, mcus)
  {
    ScanSegments(s, p, order, toGo, mcus)[0]
  }

  // One MCU of the interval at hand.
  lemma McuStepHere(s: Scan, p: Pred, order: seq<nat>, toGo: nat, mcus: seq<seq<seq<int>>>)
    requires GoodScan(s) && GoodPred(s, p) && GoodOrder(order) && ScanCodable(s, p, order, toGo, mcus)
    requires mcus != [] && !IsDue(s.interval, toGo)
    ensures |mcus[0]| == |s.membership| && Blocks(mcus[0]) && Codable(s, p, Zigzags(order, mcus[0]))
    ensures var p1, toGo1 := FinalPred(s, p, Zigzags(order, mcus[0])), ToGoNext(s.interval, toGo);
            && ScanCodable(s, p1, order, toGo1, mcus[1..])
            && RestOfSegment(s, p, order, toGo, mcus)
               == McuDecisions(s, p, Zigzags(order, mcus[0]), RestOfSegment(s, p1, order, toGo1, mcus[1..]))
            && LaterSegments(s, p, order, toGo, mcus) == LaterSegments(s, p1, order, toGo1, mcus[1..])
  {
    hide Codable, Zigzags, FinalPred, McuDecisions, Now, Later;
    NextMcu(s.interval, toGo, mcus);
  }

  // A restart comes before the next MCU.
  lemma McuStepBehind(s: Scan, p: Pred, order: seq<nat>, toGo: nat, mcus: seq<seq<seq<int>>>)
    requires GoodScan(s) && GoodPred(s, p) && GoodOrder(order) && ScanCodable(s, p, order, toGo, mcus)
    requires mcus != [] && IsDue(s.interval, toGo)
    ensures ScanCodable(s, StartPred(s), order, s.interval, mcus)
    ensures RestOfSegment(s, p, order, toGo, mcus) == []
    ensures LaterSegments(s, p, order, toGo, mcus) == ScanSegments(s, StartPred(s), order, s.interval, mcus)
  {
    hide Codable, Zigzags, FinalPred, McuDecisions, StartPred;
    DueMeans(s.interval, toGo, mcus);
  }

  lemma NothingLeft(s: Scan, p: Pred, order: seq<nat>, toGo: nat)
    requires GoodScan(s) && GoodPred(s, p) && GoodOrder(order)
    ensures ScanCodable(s, p, order, toGo, []) && ScanSegments(s, p, order, toGo, []) == [[]]
  {
  }

  // One MCU, whether a restart marker comes first or not: the segments that are done
  // before it, and the one that it belongs to.
  lemma ScanStep(s: Scan, p: Pred, order: seq<nat>, toGo: nat, mcus: seq<seq<seq<int>>>)
    requires GoodScan(s) && GoodPred(s, p) && GoodOrder(order) && ScanCodable(s, p, order, toGo, mcus) && mcus != []
    ensures var p0 := PredHere(s, toGo, p);
            |mcus[0]| == |s.membership| && Blocks(mcus[0]) && Codable(s, p0, Zigzags(order, mcus[0]))
    ensures var p0, toGo1 := PredHere(s, toGo, p), ToGoNext(s.interval, toGo);
            var p1 := FinalPred(s, p0, Zigzags(order, mcus[0]));
            && ScanCodable(s, p1, order, toGo1, mcus[1..])
            && ScanSegments(s, p, order, toGo, mcus)
               == (if IsDue(s.interval, toGo) then [[]] else [])
                  + [McuDecisions(s, p0, Zigzags(order, mcus[0]), RestOfSegment(s, p1, order, toGo1, mcus[1..]))]
                  + LaterSegments(s, p1, order, toGo1, mcus[1..])
  {
    hide ScanCodable, ScanSegments, Codable, Zigzags, FinalPred, McuDecisions, StartPred;
    if IsDue(s.interval, toGo) {
      McuStepBehind(s, p, order, toGo, mcus);
      McuStepHere(s, StartPred(s), order, s.interval, mcus);
    } else {
      McuStepHere(s, p, order, toGo, mcus);
    }
  }

  // ---- Bins --------------------------------------------------------------------------------------------------------

  lemma {:induction false} PieceInArea(s: Scan, p: Pred, order: seq<nat>, mcus: seq<seq<seq<int>>>)
    requires GoodScan(s) && GoodPred(s, p) && GoodOrder(order) && PieceCodable(s, p, order, mcus)
    ensures AllIn(PieceDecisions(s, p, order, mcus), ScanArea(s.comps))
    decreases |mcus|
  {
    hide Codable, Zigzags, FinalPred, McuDecisions, ScanArea;
    if mcus != [] {
      var p1 := FinalPred(s, p, Zigzags(order, mcus[0]));
      var ds, next := PieceDecisions(s, p, order, mcus), PieceDecisions(s, p1, order, mcus[1..]);
      PieceInArea(s, p1, order, mcus[1..]);
      McuInArea(s, p, Zigzags(order, mcus[0]), next);
      var n := |ds| - |next|;
      forall i | 0 <= i < |ds| ensures ds[i].bin in ScanArea(s.comps) {
        if i >= n { assert ds[i] == ds[n..][i - n]; }
      }
    }
  }

  // Every decision of the scan uses a bin of one of its components' tables.
  lemma {:induction false} ScanInArea(s: Scan, p: Pred, order: seq<nat>, toGo: nat, mcus: seq<seq<seq<int>>>, i: nat)
    requires GoodScan(s) && GoodPred(s, p) && GoodOrder(order) && ScanCodable(s, p, order, toGo, mcus)
    requires i < |ScanSegments(s, p, order, toGo, mcus)|
    ensures AllIn(ScanSegments(s, p, order, toGo, mcus)[i], ScanArea(s.comps))
    decreases |mcus|, if IsDue(s.interval, toGo) then 1 else 0
  {
    hide PieceCodable, PieceDecisions, ScanArea, Now, StartPred, AllIn;
    PieceInArea(s, p, order, Now(s.interval, toGo, mcus));
    if i > 0 { ScanInArea(s, StartPred(s), order, s.interval, Later(s.interval, toGo, mcus), i - 1); }
  }

  // ---- Writing -----------------------------------------------------------------------------------------------------

  method EncodeScan(t: Table, s: Scan, order: seq<nat>, mcus: seq<seq<seq<int>>>, dest: seq<byte>)
    returns (out: seq<byte>, ghost datas: seq<seq<byte>>)
    requires GoodScan(s) && GoodOrder(order) && ScanCodable(s, StartPred(s), order, s.interval, mcus)
    ensures Finished(t, dest, ScanSegments(s, StartPred(s), order, s.interval, mcus), datas, out)
  {
    hide ScanCodable, ScanSegments, GoodOrder, Contains, Run, E.Encoder.Represents, E.Encoder.OutputOk, AllCoded,
      Closed, IntervalOf, GoodStats, StartStats, StartPred, Stuff;
    var e := new E.Encoder(t, StartStats(), dest);
    NothingClosed(t, dest);
    var enc := new ScanEncoder(e, s, order);
    EncodeMcus(enc, mcus);
    ghost var from, before, last := e.start, enc.datas, e.history;
    enc.CodedNow();
    e.FinishPass();
    out, datas := e.out, before + [e.data];
    ScanFinished(t, dest, enc.segs, before, last, e.data, from, out);
  }

  lemma NothingClosed(t: Table, dest: seq<byte>)
    ensures AllCoded(t, [], []) && dest == dest + Closed([], 0)
  {
  }

  lemma ScanFinished(t: Table, dest: seq<byte>, segs: seq<seq<Decision>>, datas: seq<seq<byte>>, ds: seq<Decision>,
      data: seq<byte>, from: seq<byte>, out: seq<byte>)
    requires AllCoded(t, segs, datas) && GoodDecisions(ds, BINS) && from == dest + Closed(datas, 0)
    requires Contains(IntervalOf(t, ds), data) && (data != [] ==> data[|data| - 1] != 0) && out == from + Stuff(data)
    ensures Finished(t, dest, segs + [ds], datas + [data], out)
  {
    hide Contains, IntervalOf, Stuff, Closed;
    OneMoreSegment(t, segs, datas, ds, data, dest, from);
    assert (datas + [data])[..|datas|] == datas;
  }

  // The MCUs that are left, given what has been coded.
  ghost predicate StillToCome(segs: seq<seq<Decision>>, history: seq<Decision>, rest: seq<seq<Decision>>,
      all: seq<seq<Decision>>) {
    rest != [] && segs + [history + rest[0]] + rest[1..] == all
  }

  method EncodeMcus(enc: ScanEncoder, mcus: seq<seq<seq<int>>>)
    requires enc.Valid() && enc.e.history == [] && enc.segs == [] && enc.restartsToGo == enc.scan.interval
    requires enc.P() == StartPred(enc.scan) && ScanCodable(enc.scan, enc.P(), enc.order, enc.scan.interval, mcus)
    modifies enc, enc.e, enc.e.stats
    ensures enc.Valid()
    ensures var s := enc.scan;
            enc.segs + [enc.e.history] == ScanSegments(s, StartPred(s), enc.order, s.interval, mcus)
  {
    hide ScanCodable, ScanSegments, Codable, McuDecisions, FinalPred, Zigzags, GoodOrder, enc.Valid, StartPred, Grown,
      ScanArea, StillToCome;
    EncoderMeans(enc);
    ghost var s, order := enc.scan, enc.order;
    ghost var now, all := mcus, ScanSegments(s, enc.P(), order, s.interval, mcus);
    AllToCome(all);
    for i := 0 to |mcus|
      invariant enc.Valid() && GoodScan(s) && GoodOrder(order) && GoodPred(s, enc.P()) && now == mcus[i..]
      invariant ScanCodable(s, enc.P(), order, enc.restartsToGo, now)
      invariant StillToCome(enc.segs, enc.e.history, ScanSegments(s, enc.P(), order, enc.restartsToGo, now), all)
    {
      ScanStep(s, enc.P(), order, enc.restartsToGo, now);
      ghost var p0, toGo1 := PredHere(s, enc.restartsToGo, enc.P()), ToGoNext(s.interval, enc.restartsToGo);
      ghost var p1 := FinalPred(s, p0, Zigzags(order, now[0]));
      ghost var next := RestOfSegment(s, p1, order, toGo1, now[1..]);
      ghost var later := LaterSegments(s, p1, order, toGo1, now[1..]);
      ghost var due, segs, history := IsDue(s.interval, enc.restartsToGo), enc.segs, enc.e.history;
      enc.EncodeMcu(mcus[i], next);
      EncoderMeans(enc);
      now := now[1..];
      MovedOn(due, segs, history, enc.segs, enc.e.history,
              McuDecisions(s, p0, Zigzags(order, mcus[i]), next), next, later, all);
      assert ScanSegments(s, p1, order, toGo1, now) == [next] + later;
    }
    NothingLeft(s, enc.P(), order, enc.restartsToGo);
    NoneToCome(enc.segs, enc.e.history, all);
  }

  lemma EncoderMeans(enc: ScanEncoder)
    requires enc.Valid()
    ensures GoodScan(enc.scan) && GoodOrder(enc.order) && GoodPred(enc.scan, enc.P())
  {
  }

  lemma AllToCome(all: seq<seq<Decision>>)
    requires all != []
    ensures StillToCome([], [], all, all)
  {
    assert [] + all[0] == all[0];
  }

  lemma NoneToCome(segs: seq<seq<Decision>>, history: seq<Decision>, all: seq<seq<Decision>>)
    requires StillToCome(segs, history, [[]], all)
    ensures segs + [history] == all
  {
    assert history + [] == history;
  }

  // One MCU with the decisions ds, of which next are left.
  lemma MovedOn(due: bool, segs: seq<seq<Decision>>, history: seq<Decision>, segs': seq<seq<Decision>>,
      history': seq<Decision>, ds: seq<Decision>, next: seq<Decision>, later: seq<seq<Decision>>,
      all: seq<seq<Decision>>)
    requires StillToCome(segs, history, (if due then [[]] else []) + [ds] + later, all)
    requires if due then segs' == segs + [history] && history' + next == ds
             else segs' == segs && history' + next == history + ds
    ensures StillToCome(segs', history', [next] + later, all)
  {
    var rest := (if due then [[]] else []) + [ds] + later;
    assert ([next] + later)[0] == next && ([next] + later)[1..] == later;
    if due {
      assert rest[0] == [] && rest[1..] == [ds] + later && history + [] == history;
      assert segs + [history] + ([ds] + later) == segs' + [ds] + later;
    } else {
      assert rest[0] == ds && rest[1..] == later;
    }
  }

  // ---- Reading -----------------------------------------------------------------------------------------------------

  predicate McuDecoded(order: seq<nat>, limSe: nat, got: seq<seq<int>>, want: seq<seq<int>>)
    requires GoodOrder(order) && limSe < 64
  {
    |got| == |want| && Blocks(want)
    && forall i :: 0 <= i < |got| ==> Decoded(order, limSe, got[i], Zigzag(order, want[i]))
  }

  // One MCU into fresh blocks.
  method DecodeOne(dec: ScanDecoder, ghost exp: bool, ghost want: seq<seq<int>>, ghost next: seq<Decision>)
    returns (ok: bool, got: seq<seq<int>>)
    requires dec.Valid()
    requires exp ==> dec.McuAhead(want, next)
    modifies dec, dec.d, dec.d.stats
    ensures ok ==> dec.Valid() && dec.restartsToGo == ToGoNext(dec.scan.interval, old(dec.restartsToGo))
    ensures ok ==>
      if IsDue(dec.scan.interval, old(dec.restartsToGo)) then
        dec.nextRestartNum == (old(dec.nextRestartNum) + 1) % 8 && dec.d.base == NextStart(dec.d.input, old(dec.d.base))
      else
        dec.nextRestartNum == old(dec.nextRestartNum) && dec.d.base == old(dec.d.base)
    ensures exp ==> ok && !dec.failed && dec.d.Expects(next)
    ensures exp ==>
      var p := PredHere(dec.scan, old(dec.restartsToGo), old(dec.P()));
      dec.P() == FinalPred(dec.scan, p, Zigzags(dec.order, want))
    ensures exp ==> McuDecoded(dec.order, dec.scan.limSe, got, want)
  {
    hide Codable, McuDecisions, FinalPred, Zigzags, GoodOrder, D.Decoder.Valid, D.Decoder.Expects, Decoded, Grown,
      NextStart, ScanArea;
    var mcu := NewBlocks(|dec.scan.membership|);
    ok := dec.DecodeMcu(mcu, exp, want, next);
    got := Contents(mcu);
  }

  // Where the decoder stands when it has segs to read: in the first of them.
  ghost predicate Standing(dec: ScanDecoder, segs: seq<seq<Decision>>, num: nat)
    reads dec`failed, dec`nextRestartNum, dec.d`base, dec.d`entry, dec.d`history
  {
    && segs != [] && !dec.failed && dec.d.Expects(segs[0]) && num % 8 == dec.nextRestartNum
    && Follows(dec.d.table, dec.d.input, dec.d.base, segs[1..], num)
  }

  lemma StandingOn(dec: ScanDecoder, next: seq<Decision>, later: seq<seq<Decision>>, num: nat)
    requires !dec.failed && dec.d.Expects(next) && num % 8 == dec.nextRestartNum
    requires Follows(dec.d.table, dec.d.input, dec.d.base, later, num)
    ensures Standing(dec, [next] + later, num)
  {
    hide Follows, D.Decoder.Expects;
    assert ([next] + later)[0] == next && ([next] + later)[1..] == later;
  }

  lemma FollowsFirst(t: Table, input: seq<byte>, base: nat, ds: seq<Decision>, later: seq<seq<Decision>>, num: nat)
    requires Follows(t, input, base, [ds] + later, num)
    ensures var f := MarkerAfter(input, base); f.Marker? && f.code == RST0 + num % 8
    ensures Streams(t, ds, input, NextStart(input, base)) && Follows(t, input, NextStart(input, base), later, num + 1)
  {
    hide Streams, MarkerAfter, NextStart;
    assert ([ds] + later)[0] == ds && ([ds] + later)[1..] == later;
    assert Holds(t, input, NextStart(input, base), [ds] + later, num + 1);
  }

  lemma McuIsAhead(dec: ScanDecoder, mcus: seq<seq<seq<int>>>, num: nat)
    requires dec.Valid() && mcus != [] && ScanCodable(dec.scan, dec.P(), dec.order, dec.restartsToGo, mcus)
    requires Standing(dec, ScanSegments(dec.scan, dec.P(), dec.order, dec.restartsToGo, mcus), num)
    ensures var s, toGo1 := dec.scan, ToGoNext(dec.scan.interval, dec.restartsToGo);
            var p0 := PredHere(s, dec.restartsToGo, dec.P());
            && |mcus[0]| == |s.membership| && Blocks(mcus[0]) && Codable(s, p0, Zigzags(dec.order, mcus[0]))
            && var p1 := FinalPred(s, p0, Zigzags(dec.order, mcus[0]));
               && ScanCodable(s, p1, dec.order, toGo1, mcus[1..])
               && dec.McuAhead(mcus[0], RestOfSegment(s, p1, dec.order, toGo1, mcus[1..]))
               && (if IsDue(s.interval, dec.restartsToGo)
                   then Follows(dec.d.table, dec.d.input, NextStart(dec.d.input, dec.d.base),
                                LaterSegments(s, p1, dec.order, toGo1, mcus[1..]), num + 1)
                   else Follows(dec.d.table, dec.d.input, dec.d.base,
                                LaterSegments(s, p1, dec.order, toGo1, mcus[1..]), num))
  {
    hide ScanCodable, ScanSegments, Codable, McuDecisions, FinalPred, Zigzags, GoodOrder, dec.Valid, StartPred, Streams,
      D.Decoder.Expects;
    var s, order := dec.scan, dec.order;
    DecoderMeans(dec);
    ScanStep(s, dec.P(), order, dec.restartsToGo, mcus);
    var p0, toGo1 := PredHere(s, dec.restartsToGo, dec.P()), ToGoNext(s.interval, dec.restartsToGo);
    var p1 := FinalPred(s, p0, Zigzags(order, mcus[0]));
    var segs := ScanSegments(s, dec.P(), order, dec.restartsToGo, mcus);
    var ds := McuDecisions(s, p0, Zigzags(order, mcus[0]), RestOfSegment(s, p1, order, toGo1, mcus[1..]));
    var later := LaterSegments(s, p1, order, toGo1, mcus[1..]);
    if IsDue(s.interval, dec.restartsToGo) {
      assert segs[1..] == [ds] + later;
      FollowsFirst(dec.d.table, dec.d.input, dec.d.base, ds, later, num);
    } else {
      assert segs[0] == ds && segs[1..] == later;
    }
  }

  lemma DecoderMeans(dec: ScanDecoder)
    requires dec.Valid()
    ensures GoodScan(dec.scan) && GoodOrder(dec.order) && GoodPred(dec.scan, dec.P())
  {
  }

  method DecodeScan(t: Table, s: Scan, order: seq<nat>, n: nat, source: seq<byte>, ghost want: seq<seq<seq<int>>>)
    returns (ok: bool, got: seq<seq<seq<int>>>)
    requires GoodScan(s) && GoodOrder(order)
    ensures IsStreamOf(t, s, order, want, n, source) ==>
      && ok && |got| == n && forall i :: 0 <= i < n ==> McuDecoded(order, s.limSe, got[i], want[i])
  {
    hide ScanCodable, ScanSegments, Codable, McuDecisions, FinalPred, Zigzags, GoodOrder, D.Decoder.Valid,
      D.Decoder.Expects, McuDecoded, StartPred, StartStats, GoodStats, Follows, Holds, NextStart,
      ScanDecoder.McuAhead;
    ghost var exp := IsStreamOf(t, s, order, want, n, source);
    var d := new D.Decoder(t, StartStats(), source);
    var dec := new ScanDecoder(d, s, order);
    ghost var num := 0;
    if exp { Started(dec, ScanSegments(s, StartPred(s), order, s.interval, want)); }
    got, ok := [], true;
    ghost var now := want;
    for i := 0 to n
      invariant ok && dec.Valid() && fresh(dec) && fresh(d) && fresh(d.stats) && |got| == i
      invariant exp ==> now == want[i..] && ScanCodable(s, dec.P(), order, dec.restartsToGo, now)
      invariant exp ==> Standing(dec, ScanSegments(s, dec.P(), order, dec.restartsToGo, now), num)
      invariant exp ==> forall j :: 0 <= j < i ==> McuDecoded(order, s.limSe, got[j], want[j])
    {
      ghost var z, after, due := [], [], IsDue(s.interval, dec.restartsToGo);
      ghost var p1, toGo1 := StartPred(s), ToGoNext(s.interval, dec.restartsToGo);
      if exp {
        McuIsAhead(dec, now, num);
        z, p1 := want[i], FinalPred(s, PredHere(s, dec.restartsToGo, dec.P()), Zigzags(order, want[i]));
        after := RestOfSegment(s, p1, order, toGo1, now[1..]);
      }
      var blocks;
      ok, blocks := DecodeOne(dec, exp, z, after);
      if !ok { return; }
      got := got + [blocks];
      if exp {
        now := now[1..];
        if due { num := num + 1; }
        StandingOn(dec, after, LaterSegments(s, p1, order, toGo1, now), num);
        assert ScanSegments(s, p1, order, toGo1, now) == [after] + LaterSegments(s, p1, order, toGo1, now);
      }
    }
  }

  // The source holds the segments of the wanted MCUs.
  ghost predicate IsStreamOf(t: Table, s: Scan, order: seq<nat>, want: seq<seq<seq<int>>>, n: nat, source: seq<byte>)
    requires GoodScan(s) && GoodOrder(order)
  {
    |want| == n && ScanCodable(s, StartPred(s), order, s.interval, want)
    && Holds(t, source, 0, ScanSegments(s, StartPred(s), order, s.interval, want), 0)
  }

  lemma Started(dec: ScanDecoder, segs: seq<seq<Decision>>)
    requires dec.Valid() && !dec.failed && dec.nextRestartNum == 0 && dec.d.history == []
    requires Holds(dec.d.table, dec.d.input, dec.d.base, segs, 0)
    ensures Standing(dec, segs, 0)
  {
    hide D.Decoder.Valid, Follows;
    dec.NextExpected(segs[0]);
  }

  // The scan round trip, for every image, order, component set, table and restart
  // interval: all the coefficients up to limSe come back, and with limSe 63 the blocks
  // themselves.
  method ScanRoundTrip(t: Table, s: Scan, order: seq<nat>, mcus: seq<seq<seq<int>>>, dest: seq<byte>, marker: byte,
      rest: seq<byte>)
    returns (out: seq<byte>, ok: bool, got: seq<seq<seq<int>>>, ghost datas: seq<seq<byte>>)
    requires GoodScan(s) && GoodOrder(order) && ScanCodable(s, StartPred(s), order, s.interval, mcus)
    requires 0 < marker < 0xFF
    ensures Finished(t, dest, ScanSegments(s, StartPred(s), order, s.interval, mcus), datas, out) && |dest| <= |out|
    ensures IsStreamOf(t, s, order, mcus, |mcus|, Source(out, dest, marker, rest))
    ensures ok && |got| == |mcus|
    ensures forall i :: 0 <= i < |mcus| ==> McuDecoded(order, s.limSe, got[i], mcus[i])
    ensures s.limSe == 63 ==> got == mcus
  {
    hide ScanCodable, ScanSegments, GoodOrder, Decoded, StartPred, AllCoded, Closed, Holds, Stuff;
    out, datas := EncodeScan(t, s, order, mcus, dest);
    ghost var segs := ScanSegments(s, StartPred(s), order, s.interval, mcus);
    assert AllCoded(t, segs, datas);
    AsMany(t, segs, datas);
    ghost var last := |datas| - 1;
    FinishedHolds(t, [], segs, datas, 0, marker, rest);
    AsSource(dest, Closed(datas[..last], 0), Stuff(datas[last]), out, marker, rest);
    ok, got := DecodeScan(t, s, order, |mcus|, Source(out, dest, marker, rest), mcus);
    if s.limSe == 63 {
      forall i | 0 <= i < |mcus| ensures got[i] == mcus[i] {
        forall j | 0 <= j < |mcus[i]| ensures got[i][j] == mcus[i][j] {
          DecodedInFull(order, got[i][j], mcus[i][j]);
        }
      }
    }
  }

  lemma AsMany(t: Table, segs: seq<seq<Decision>>, datas: seq<seq<byte>>)
    requires AllCoded(t, segs, datas)
    ensures |segs| == |datas|
  {
  }

  lemma AsSource(dest: seq<byte>, closed: seq<byte>, last: seq<byte>, out: seq<byte>, marker: byte, rest: seq<byte>)
    requires out == dest + closed + last
    ensures Source(out, dest, marker, rest) == [] + (closed + (last + ([0xFF, marker] + rest)))
  {
  }
}
