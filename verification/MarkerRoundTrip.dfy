// What the routines of jcmarker.c write, whatever is before and behind it, is what those
// of jdmarker.c read.
module MarkerRoundTrip {
  import opened Bytes
  import opened NaturalOrders
  import opened Markers
  import opened MarkerWriter
  import opened MarkerReader

  // ---- Finding the segment -----------------------------------------------------------------------------------------

  lemma SegmentNext(before: seq<byte>, mark: byte, seg: seq<byte>, rest: seq<byte>)
    requires mark != 0 && mark != 0xFF
    ensures var file := before + ([0xFF, mark] + seg) + rest;
            MarkerReader.MarkerAt(file, |before|) && file[|before| + 1] == mark && Next(file, |before| + 2, seg)
  {
    var file := before + ([0xFF, mark] + seg) + rest;
    assert file[|before| + 2..|before| + 2 + |seg|] == seg;
  }

  // The reader comes to a segment that was written.
  method ComeTo(file: seq<byte>, ghost before: seq<byte>, ghost mark: byte, ghost seg: seq<byte>, ghost rest: seq<byte>,
      start: nat)
    returns (m: MarkerReader)
    requires file == before + ([0xFF, mark] + seg) + rest && start == |before| && mark != 0 && mark != 0xFF
    ensures fresh(m) && m.Valid() && m.input == file && m.pos == |before| + 2 && Next(file, m.pos, seg)
        && file[m.pos - 1] == mark
    ensures m.quant == seq(NUM_QUANT_TBLS, _ => []) && m.dcHuff == m.acHuff == seq(NUM_HUFFMAN_TBLS, _ => Null)
        && !m.sawSof
    ensures m.arith == Conditioning(seq(NUM_ARITH_TBLS, _ => 0), seq(NUM_ARITH_TBLS, _ => 1),
        seq(NUM_ARITH_TBLS, _ => 5))
  {
    hide Next;
    SegmentNext(before, mark, seg, rest);
    m := new MarkerReader(file, start);
    var r, code := m.NextMarker();
  }

  // The length that is declared is the length there is.
  lemma SegmentLength(file: seq<byte>, before: seq<byte>, mark: byte, payload: seq<byte>, rest: seq<byte>)
    requires file == before + ([0xFF, mark] + Segment(payload)) + rest && |payload| + 2 < 0x1_0000
    ensures Declared(file, |before| + 2) == |Segment(payload)| == |payload| + 2
  {
    AfterLength(payload);
    assert file[|before| + 2] == Segment(payload)[0] && file[|before| + 3] == Segment(payload)[1];
  }

  // ---- DQT ---------------------------------------------------------------------------------------------------------

  predicate InCornerOf(p: nat, side: nat) { p / 8 < side && p % 8 < side }

  // The table that is stored has the coefficients in use, and 1 for all others.
  lemma StoredAt(was: seq<nat>, q: seq<nat>, side: nat, p: nat)
    requires GoodQuant(q) && Side(side) && p < DCTSIZE2
    ensures MarkerReader.Stored(was, Sent(q, side))[p] == if InCornerOf(p, side) then q[p] else 1
  {
    hide Entry, Diagonal, GoodQuant;
    var vals := Sent(q, side);
    var n := SideFor(|vals|);
    SameOrder(side);
    var base := if |vals| < DCTSIZE2 then AllOnes() else if |was| == DCTSIZE2 then was else seq(DCTSIZE2, _ => 0);
    assert |q| == DCTSIZE2 by { QuantSize(q); }
    forall i | 0 <= i < |vals| ensures vals[i] == q[Entry(n, i)] { SameEntry(side, i); }
    FilledAt(base, n, vals, q, p);
    if InCornerOf(p, side) {
      var k := PlaceOf(side, p);
      SameEntry(side, k);
    } else {
      forall i | 0 <= i < |vals| ensures Entry(n, i) != p { SameEntry(side, i); InCorner(side, i); }
    }
  }

  lemma QuantSize(q: seq<nat>)
    requires GoodQuant(q)
    ensures |q| == DCTSIZE2
  {
  }

  lemma SameOrder(side: nat)
    requires Side(side)
    ensures Count(side) < DCTSIZE2 <==> side < 8
    ensures SideFor(Count(side)) == if side == 1 then 8 else side
  {
  }

  // A block of one coefficient is taken for one of eight a side, which starts alike.
  lemma SameEntry(side: nat, i: nat)
    requires Side(side) && i < Count(side)
    ensures Entry(SideFor(Count(side)), i) == Entry(side, i)
  {
  }

  method QuantRoundTrip(w: Writer, index: nat, side: nat, rest: seq<byte>) returns (m: MarkerReader, r: Outcome)
    requires w.Valid() && index < NUM_QUANT_TBLS && Side(side) && w.quant[index].QuantSlot? && !w.quant[index].tbl.sent
    modifies w`out, w`quant
    ensures r == Read && m.input == w.out + rest && m.pos == |w.out|
    ensures m.Valid() && |m.quant[index]| == DCTSIZE2
    ensures var q := old(w.quant[index].tbl.quantval);
            forall p :: 0 <= p < DCTSIZE2 ==> m.quant[index][p] == if InCornerOf(p, side) then q[p] else 1
    ensures forall n :: 0 <= n < NUM_QUANT_TBLS && n != index ==> m.quant[n] == []
  {
    hide Next, Segment, QuantBytes, Entry, GoodQuant, GoodQuantEntry;
    ghost var q, before := w.quant[index].tbl.quantval, w.out;
    ghost var e := EntryFor(index, q, side);
    QuantSize(q);
    MarkerReader.QuantParts(e);
    var start := |w.out|;
    var written, prec := w.EmitDqt(index, side);
    m := ComeTo(w.out + rest, before, M_DQT, Segment(QuantBytes(e)), rest, start);
    r := m.GetDqt(e);
    SegmentLength(w.out + rest, before, M_DQT, QuantBytes(e), rest);
    forall p | 0 <= p < DCTSIZE2 ensures m.quant[index][p] == if InCornerOf(p, side) then q[p] else 1 {
      StoredAt([], q, side, p);
    }
  }

  // ---- DHT ---------------------------------------------------------------------------------------------------------

  method HuffRoundTrip(w: Writer, index: nat, isAC: bool, rest: seq<byte>) returns (m: MarkerReader, r: Outcome)
    requires w.Valid() && index < NUM_HUFFMAN_TBLS
    requires var slot := if isAC then w.acHuff[index] else w.dcHuff[index]; slot.HuffSlot? && !slot.sent
    modifies w`out, w`dcHuff, w`acHuff
    ensures r == Read && m.input == w.out + rest && m.pos == |w.out| && m.Valid()
    ensures var t := if isAC then old(w.acHuff[index].tbl) else old(w.dcHuff[index].tbl);
            Sendable(t) && MarkerReader.SameTable(if isAC then m.acHuff[index] else m.dcHuff[index], t)
    ensures forall n ::
        0 <= n < NUM_HUFFMAN_TBLS ==>
        (n != index || isAC ==> m.dcHuff[n] == Null) && (n != index || !isAC ==> m.acHuff[n] == Null)
  {
    hide Next, Segment, HuffBytes, Sendable, MarkerReader.SameTable;
    ghost var before, t := w.out, if isAC then w.acHuff[index].tbl else w.dcHuff[index].tbl;
    MarkerReader.CodesFit(t);
    var start := |w.out|;
    var written := w.EmitDht(index, isAC);
    m := ComeTo(w.out + rest, before, M_DHT, Segment(HuffBytes(index, isAC, t)), rest, start);
    r := m.GetDht(index, isAC, t);
    SegmentLength(w.out + rest, before, M_DHT, HuffBytes(index, isAC, t), rest);
  }

  // ---- DAC ---------------------------------------------------------------------------------------------------------

  function Defaults(): (c: Conditioning)
    ensures Sized(c)
  {
    Conditioning(seq(NUM_ARITH_TBLS, _ => 0), seq(NUM_ARITH_TBLS, _ => 1), seq(NUM_ARITH_TBLS, _ => 5))
  }

  // The tables whose conditioning a scan needs: a DC refinement scan needs none of the DC
  // ones, and a scan without AC coefficients none of the AC ones.
  predicate NeedsDc(p: ScanPlan, comps: seq<Component>, t: nat)
    requires GoodPlan(p, comps)
  {
    p.ss == 0 && p.ah == 0 && exists i :: 0 <= i < |p.comps| && comps[p.comps[i]].dcTbl == t
  }

  predicate NeedsAc(p: ScanPlan, comps: seq<Component>, t: nat)
    requires GoodPlan(p, comps)
  {
    p.se > 0 && exists i :: 0 <= i < |p.comps| && comps[p.comps[i]].acTbl == t
  }

  // What the scan needs is that of the writer, and the rest is what was there before.
  predicate ConditioningRead(a: Conditioning, was: Conditioning, p: ScanPlan, comps: seq<Component>, c: Conditioning)
    requires GoodPlan(p, comps) && GoodConditioning(c) && Sized(was)
  {
    Sized(a) && forall t :: 0 <= t < NUM_ARITH_TBLS ==>
      && a.dcL[t] == (if NeedsDc(p, comps, t) then c.dcL[t] else was.dcL[t])
      && a.dcU[t] == (if NeedsDc(p, comps, t) then c.dcU[t] else was.dcU[t])
      && a.acK[t] == (if NeedsAc(p, comps, t) then c.acK[t] else was.acK[t])
  }

  // No bounds that the scan needs are the wrong way round.
  predicate BoundsOrdered(p: ScanPlan, comps: seq<Component>, c: Conditioning)
    requires GoodPlan(p, comps) && GoodConditioning(c)
  {
    forall t :: 0 <= t < NUM_ARITH_TBLS && NeedsDc(p, comps, t) ==> c.dcL[t] <= c.dcU[t]
  }

  lemma NeedsAre(was: Conditioning, p: ScanPlan, comps: seq<Component>, c: Conditioning)
    requires GoodComponents(comps) && GoodPlan(p, comps) && GoodConditioning(c) && Sized(was)
    ensures Sized(c)
    ensures var dc, ac := InUse(p, comps, |p.comps|, true), InUse(p, comps, |p.comps|, false);
            && (Ordered(c, dc, 0) <==> BoundsOrdered(p, comps, c))
            && ConditioningRead(Restored(was, c, dc, ac, 0), was, p, comps, c)
  {
    hide GoodComponents, InUse;
    var dc, ac := InUse(p, comps, |p.comps|, true), InUse(p, comps, |p.comps|, false);
    forall t: nat | t < NUM_ARITH_TBLS ensures dc[t] == NeedsDc(p, comps, t) && ac[t] == NeedsAc(p, comps, t) {}
  }

  // The parameters of the segment that the writer makes.
  function DacOf(p: ScanPlan, comps: seq<Component>, c: Conditioning): (s: seq<byte>)
    requires GoodComponents(comps) && GoodPlan(p, comps) && GoodConditioning(c)
  {
    DacBytes(c, InUse(p, comps, |p.comps|, true), InUse(p, comps, |p.comps|, false), 0)
  }

  // A DAC segment behind what has been read.
  method ReadDac(m: MarkerReader, ghost middle: seq<byte>, ghost p: ScanPlan, ghost comps: seq<Component>,
      ghost c: Conditioning, ghost rest: seq<byte>)
    returns (r: Outcome)
    requires GoodComponents(comps) && GoodPlan(p, comps) && GoodConditioning(c)
    requires m.Valid() && m.pos == |middle| && m.input == middle + ([0xFF, M_DAC] + Segment(DacOf(p, comps, c))) + rest
    modifies m`pos, m`arith
    ensures m.Valid() && Sized(old(m.arith)) && r == if BoundsOrdered(p, comps, c) then Read else Failed(BadArithValue)
    ensures r == Read ==>
              m.pos == |m.input| - |rest| && ConditioningRead(m.arith, old(m.arith), p, comps, c)
  {
    hide Next, Segment, DacBytes, GoodConditioning, GoodPlan, GoodComponents, InUse, TakeAll, Restored, Ordered,
        Entries, BoundsOrdered, ConditioningRead;
    ghost var s, was := DacOf(p, comps, c), m.arith;
    DacRestores(was, c, InUse(p, comps, |p.comps|, true), InUse(p, comps, |p.comps|, false), 0);
    GoodIsSized(c);
    NeedsAre(was, p, comps, c);
    SegmentNext(middle, M_DAC, Segment(s), rest);
    SegmentLength(m.input, middle, M_DAC, s, rest);
    var mark;
    r, mark := m.NextMarker();
    r := m.GetDac(s);
  }

  // The conditioning that the scan needs is restored exactly when none of its bounds are the
  // wrong way round: the writer does not look at them and the reader refuses them.
  method ConditioningRoundTrip(w: Writer, p: ScanPlan, comps: seq<Component>, c: Conditioning, rest: seq<byte>)
    returns (m: MarkerReader, r: Outcome)
    requires GoodComponents(comps) && GoodPlan(p, comps) && GoodConditioning(c)
    modifies w`out
    ensures m.input == w.out + rest && m.Valid()
    ensures r == if BoundsOrdered(p, comps, c) then Read else Failed(BadArithValue)
    ensures r == Read ==> m.pos == |w.out| && ConditioningRead(m.arith, Defaults(), p, comps, c)
  {
    hide Segment, DacBytes, GoodConditioning, GoodPlan, GoodComponents, InUse, BoundsOrdered, ConditioningRead;
    ghost var before := w.out;
    var start := |w.out|;
    w.EmitDac(p, comps, c);
    m := new MarkerReader(w.out + rest, start);
    r := ReadDac(m, before, p, comps, c, rest);
  }

  function NoQuants(): (q: seq<QuantSlot>)
    ensures |q| == NUM_QUANT_TBLS && forall i :: 0 <= i < |q| ==> q[i] == NoQuant
  {
    seq(NUM_QUANT_TBLS, _ => NoQuant)
  }

  function NoHuffs(): (h: seq<HuffSlot>)
    ensures |h| == NUM_HUFFMAN_TBLS && forall i :: 0 <= i < |h| ==> h[i] == NoHuff
  {
    seq(NUM_HUFFMAN_TBLS, _ => NoHuff)
  }

  // Bounds that the writer takes and the reader refuses.
  method BoundsRefused() returns (c: Conditioning, p: ScanPlan, comps: seq<Component>, r: Outcome)
    ensures GoodComponents(comps) && GoodPlan(p, comps) && GoodConditioning(c)
    ensures p == ScanPlan([0], 0, 63, 0, 0) && comps == [Component(CompSpec(1, 1, 1, 0), 0, 0)]
    ensures c == Conditioning(seq(NUM_ARITH_TBLS, _ => 5), seq(NUM_ARITH_TBLS, _ => 1), seq(NUM_ARITH_TBLS, _ => 5))
    ensures r == Failed(BadArithValue)
  {
    p, comps := ScanPlan([0], 0, 63, 0, 0), [Component(CompSpec(1, 1, 1, 0), 0, 0)];
    c := Conditioning(seq(NUM_ARITH_TBLS, _ => 5), seq(NUM_ARITH_TBLS, _ => 1), seq(NUM_ARITH_TBLS, _ => 5));
    assert comps[p.comps[0]].dcTbl == 0;
    assert NeedsDc(p, comps, 0);
    var w := new Writer(NoQuants(), NoHuffs(), NoHuffs(), []);
    var m;
    m, r := ConditioningRoundTrip(w, p, comps, c, []);
  }

  // ---- DRI ---------------------------------------------------------------------------------------------------------

  // A restart interval comes back exactly when it fits in its field.
  method IntervalRoundTrip(w: Writer, interval: nat, rest: seq<byte>) returns (m: MarkerReader, r: Outcome)
    modifies w`out
    ensures r == Read && m.input == w.out + rest && m.pos == |w.out| && m.Valid()
    ensures m.restartInterval == interval % 65536 && (m.restartInterval == interval <==> interval <= 65535)
  {
    hide Next, Segment, TwoBytes;
    ghost var before := w.out;
    var start := |w.out|;
    w.EmitDri(interval);
    m := ComeTo(w.out + rest, before, M_DRI, Segment(TwoBytes(interval)), rest, start);
    r := m.GetDri(interval);
    SegmentLength(w.out + rest, before, M_DRI, TwoBytes(interval), rest);
  }

  // An interval that does not fit.
  method IntervalCut() returns (interval: nat, read: nat)
    ensures interval == 65536 && read == 0
  {
    interval := 65536;
    var w := new Writer(NoQuants(), NoHuffs(), NoHuffs(), []);
    var m, r := IntervalRoundTrip(w, interval, []);
    read := m.restartInterval;
  }

  // ---- SOF and SOS -------------------------------------------------------------------------------------------------

  // The frames that the reader supports, and whether it takes them for progressive ones.
  predicate IsSof(code: byte) { code in {M_SOF0, M_SOF1, M_SOF2, M_SOF9, M_SOF10} }

  predicate Progressive(code: byte) { code == M_SOF2 || code == M_SOF10 }

  method ReadFrame(file: seq<byte>, start: nat, code: byte, ghost before: seq<byte>, ghost f: Frame,
      ghost rest: seq<byte>)
    returns (m: MarkerReader, r: Outcome)
    requires GoodFrame(f) && IsSof(code)
    requires file == before + ([0xFF, code] + Segment(FrameBytes(f))) + rest && start == |before|
    ensures m.Valid() && fresh(m) && m.input == file && m.arith == Defaults()
    ensures r == Failed(EmptyImage) <==> f.height == 0 || f.width == 0 || f.comps == []
    ensures r != Failed(EmptyImage) ==>
              r == Read && m.pos == |file| - |rest| && m.frame == f && m.sawSof && m.progressive == Progressive(code)
  {
    hide Next, Segment, FrameBytes, GoodFrame;
    m := ComeTo(file, before, code, Segment(FrameBytes(f)), rest, start);
    r := m.GetSof(Progressive(code), f);
    FrameIsShort(f);
    SegmentLength(file, before, code, FrameBytes(f), rest);
  }

  method FrameRoundTrip(w: Writer, code: byte, precision: byte, height: nat, width: nat, comps: seq<Component>,
      rest: seq<byte>)
    returns (m: MarkerReader, written: Written, r: Outcome)
    requires GoodComponents(comps) && IsSof(code)
    modifies w`out
    ensures written == TooBig <==> height > 65535 || width > 65535
    ensures written != TooBig ==>
              && m.Valid() && fresh(m) && m.input == w.out + rest
              && (r == Failed(EmptyImage) <==> height == 0 || width == 0 || comps == [])
              && (r != Failed(EmptyImage) ==>
                    && r == Read && m.pos == |w.out| && m.frame == FrameOf(precision, height, width, comps)
                    && m.sawSof && m.progressive == Progressive(code))
  {
    hide Segment, FrameBytes, GoodFrame, GoodComponents;
    ghost var before := w.out;
    var start := |w.out|;
    written := w.EmitSof(code, precision, height, width, comps);
    m := new MarkerReader(w.out, 0);
    r := Suspended;
    if written == TooBig { return; }
    m, r := ReadFrame(w.out + rest, start, code, before, FrameOf(precision, height, width, comps), rest);
  }

  // A component that no other with the same number comes before.
  predicate Foremost(comps: seq<Component>, ci: nat)
    requires ci < |comps|
  {
    forall j :: 0 <= j < ci ==> comps[j].spec.id != comps[ci].spec.id
  }

  // The first component with the number of another.
  predicate FirstLike(comps: seq<Component>, ci: nat, first: nat)
    requires ci < |comps|
  {
    first <= ci && comps[first].spec.id == comps[ci].spec.id && Foremost(comps, first)
  }

  // The components of a scan come back exactly when each of them is the first with its
  // number. Then each has its own DC table, except in a DC refinement scan and an AC scan,
  // and its own AC table, except where there are no AC coefficients; else it has table 0.
  predicate SameComponents(m: MarkerReader, p: ScanPlan, comps: seq<Component>)
    requires GoodComponents(comps) && GoodPlan(p, comps) && |m.dcTbl| == |m.acTbl| == |comps|
    reads m
  {
    && m.curComp == p.comps
    && forall i :: 0 <= i < |p.comps| ==>
         && m.dcTbl[p.comps[i]] == (if p.ss == 0 && p.ah == 0 then comps[p.comps[i]].dcTbl else 0)
         && m.acTbl[p.comps[i]] == (if p.se > 0 then comps[p.comps[i]].acTbl else 0)
  }

  // Each component was found, and is the foremost one with its number.
  lemma FoundIs(p: ScanPlan, comps: seq<Component>)
    requires GoodComponents(comps) && GoodPlan(p, comps)
    ensures var found := FirstOnes(HeaderOf(p, comps).comps, Ids(comps));
            && |found| == |p.comps| && (forall i :: 0 <= i < |found| ==> FirstLike(comps, p.comps[i], found[i]))
            && (found == p.comps <==> forall i :: 0 <= i < |p.comps| ==> Foremost(comps, p.comps[i]))
  {
    hide GoodComponents, FirstWith;
    var s, ids := HeaderOf(p, comps), Ids(comps);
    var found := FirstOnes(s.comps, ids);
    forall i | 0 <= i < |p.comps| ensures found[i] == p.comps[i] <==> Foremost(comps, p.comps[i]) {
      assert found[i] == Found(s.comps[i], ids) && s.comps[i].ci == p.comps[i];
      if found[i] != p.comps[i] { assert comps[found[i]].spec.id == comps[p.comps[i]].spec.id; }
      assert forall j :: 0 <= j < |comps| ==> ids[j] == comps[j].spec.id;
    }
    if found != p.comps { var i :| 0 <= i < |p.comps| && found[i] != p.comps[i]; }
  }

  lemma TablesAre(p: ScanPlan, comps: seq<Component>, was: seq<nat>, i: nat)
    requires GoodComponents(comps) && GoodPlan(p, comps) && |was| == |comps| && i < |p.comps|
    ensures var c := HeaderOf(p, comps).comps;
            && Assigned(was, p.comps, DcTbls(c))[p.comps[i]]
               == (if p.ss == 0 && p.ah == 0 then comps[p.comps[i]].dcTbl else 0)
            && Assigned(was, p.comps, AcTbls(c))[p.comps[i]] == (if p.se > 0 then comps[p.comps[i]].acTbl else 0)
  {
    hide GoodComponents, Assigned;
    var c := HeaderOf(p, comps).comps;
    AssignedAt(was, p.comps, DcTbls(c), p.comps[i]);
    AssignedAt(was, p.comps, AcTbls(c), p.comps[i]);
    assert p.comps[i] in p.comps;
  }

  // A scan header behind what has been read.
  method ReadScan(m: MarkerReader, ghost middle: seq<byte>, ghost p: ScanPlan, ghost comps: seq<Component>,
      ghost rest: seq<byte>)
    returns (r: Outcome)
    requires GoodComponents(comps) && GoodPlan(p, comps)
    requires m.Valid() && m.sawSof && m.pos == |middle| && FrameIds(m.frame) == Ids(comps)
    requires m.input == middle + ([0xFF, M_SOS] + Segment(ScanBytes(HeaderOf(p, comps), Ids(comps)))) + rest
    modifies m
    ensures m.Valid() && |m.dcTbl| == |m.acTbl| == |comps| && m.arith == old(m.arith)
    ensures r == Failed(BadLength) <==> p.comps == [] && !old(m.progressive)
    ensures r != Failed(BadLength) ==>
              && r == Read && m.pos == |m.input| - |rest| && m.params == (p.ss, p.se, p.ah, p.al)
              && m.nextRestartNum == 0
              && |m.curComp| == |p.comps|
              && (forall i :: 0 <= i < |p.comps| ==> FirstLike(comps, p.comps[i], m.curComp[i]))
              && (SameComponents(m, p, comps) <==> forall i :: 0 <= i < |p.comps| ==> Foremost(comps, p.comps[i]))
  {
    hide Next, Segment, ScanBytes, GoodFrame, GoodComponents, GoodPlan, GoodScanHeader, FirstOnes, DcTbls, AcTbls,
        Assigned, FrameIds,
      Foremost;
    ghost var s, ids := HeaderOf(p, comps), Ids(comps);
    SegmentNext(middle, M_SOS, Segment(ScanBytes(s, ids)), rest);
    ScanIsShort(s, ids);
    SegmentLength(m.input, middle, M_SOS, ScanBytes(s, ids), rest);
    var mark;
    r, mark := m.NextMarker();
    ghost var dc, ac := m.dcTbl, m.acTbl;
    r := m.GetSos(s);
    if r == Failed(BadLength) { return; }
    FoundIs(p, comps);
    if m.curComp == p.comps { TablesBack(m, p, comps, dc, ac); }
  }

  lemma TablesBack(m: MarkerReader, p: ScanPlan, comps: seq<Component>, dc: seq<nat>, ac: seq<nat>)
    requires GoodComponents(comps) && GoodPlan(p, comps) && |dc| == |ac| == |comps| && m.curComp == p.comps
    requires m.dcTbl == Assigned(dc, p.comps, DcTbls(HeaderOf(p, comps).comps))
        && m.acTbl == Assigned(ac, p.comps, AcTbls(HeaderOf(p, comps).comps))
    ensures SameComponents(m, p, comps)
  {
    hide GoodComponents, Assigned, DcTbls, AcTbls, HeaderOf;
    forall i | 0 <= i < |p.comps|
      ensures m.dcTbl[p.comps[i]] == (if p.ss == 0 && p.ah == 0 then comps[p.comps[i]].dcTbl else 0)
              && m.acTbl[p.comps[i]] == (if p.se > 0 then comps[p.comps[i]].acTbl else 0)
    {
      TablesAre(p, comps, dc, i);
      TablesAre(p, comps, ac, i);
    }
  }

  method ScanRoundTrip(w: Writer, code: byte, precision: byte, height: nat, width: nat, comps: seq<Component>,
                       p: ScanPlan, rest: seq<byte>) returns (m: MarkerReader, r: Outcome)
    requires GoodComponents(comps) && GoodPlan(p, comps) && IsSof(code)
    requires 0 < height <= 65535 && 0 < width <= 65535 && comps != []
    modifies w`out
    ensures m.Valid() && m.input == w.out + rest && |m.dcTbl| == |m.acTbl| == |comps|
    ensures r == Failed(BadLength) <==> p.comps == [] && !Progressive(code)
    ensures r != Failed(BadLength) ==>
              && r == Read && m.pos == |w.out| && m.params == (p.ss, p.se, p.ah, p.al) && m.nextRestartNum == 0
              && |m.curComp| == |p.comps|
              && (forall i :: 0 <= i < |p.comps| ==> FirstLike(comps, p.comps[i], m.curComp[i]))
              && (SameComponents(m, p, comps) <==> forall i :: 0 <= i < |p.comps| ==> Foremost(comps, p.comps[i]))
  {
    hide Segment, FrameBytes, ScanBytes, GoodFrame, GoodComponents, GoodPlan, HeaderOf, SameComponents, Foremost;
    ghost var before := w.out;
    var start := |w.out|;
    var written := w.EmitSof(code, precision, height, width, comps);
    ghost var f := FrameOf(precision, height, width, comps);
    ghost var middle := w.out;
    w.EmitSos(p, comps);
    ghost var sos := [0xFF, M_SOS] + Segment(ScanBytes(HeaderOf(p, comps), Ids(comps)));
    assert w.out + rest == before + ([0xFF, code] + Segment(FrameBytes(f))) + (sos + rest);
    m, r := ReadFrame(w.out + rest, start, code, before, f, sos + rest);
    assert FrameIds(m.frame) == Ids(comps);
    r := ReadScan(m, middle, p, comps, rest);
  }

  lemma ScanIsShort(s: ScanHeader, ids: seq<nat>)
    requires GoodScanHeader(s, ids)
    ensures |ScanBytes(s, ids)| + 2 < 0x1_0000
  {
  }

  lemma FrameIsShort(f: Frame)
    requires GoodFrame(f)
    ensures |FrameBytes(f)| + 2 < 0x1_0000
  {
  }

  // Two components with one number: the scan of the second is read as one of the first.
  method SameNumber() returns (comps: seq<Component>, p: ScanPlan, read: seq<nat>)
    ensures comps == [Component(CompSpec(1, 1, 1, 0), 0, 0), Component(CompSpec(1, 1, 1, 0), 1, 1)]
    ensures p == ScanPlan([1], 0, 63, 0, 0) && read == [0]
  {
    comps := [Component(CompSpec(1, 1, 1, 0), 0, 0), Component(CompSpec(1, 1, 1, 0), 1, 1)];
    p := ScanPlan([1], 0, 63, 0, 0);
    var w := new Writer(NoQuants(), NoHuffs(), NoHuffs(), []);
    var m, r := ScanRoundTrip(w, M_SOF1, 8, 1, 1, comps, p, []);
    read := m.curComp;
    assert FirstLike(comps, p.comps[0], read[0]);
    assert !Foremost(comps, 1) by { assert comps[0].spec.id == comps[1].spec.id; }
  }
}
