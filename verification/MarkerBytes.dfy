// The marker segments byte by byte: section B.2 of ITU-T T.81.
module MarkerBytes {
  import opened Bytes
  import opened NaturalOrders
  import opened HuffGen
  import opened Markers
  import opened MarkerWriter

  // Two bytes of b, the upper one first.
  function TwoAt(b: seq<byte>, k: nat): nat
    requires k + 1 < |b|
  {
    var hi: nat, lo: nat := b[k], b[k + 1];
    256 * hi + lo
  }

  // A marker and its segment: the code, the length, which counts its own two bytes, and what follows.
  predicate Starts(b: seq<byte>, code: byte, length: nat) {
    |b| == 2 + length && length >= 2 && b[0] == 0xFF && b[1] == code && TwoAt(b, 2) == length
  }

  lemma SegmentStarts(code: byte, payload: seq<byte>)
    requires |payload| + 2 < 0x1_0000
    ensures var b := [0xFF, code] + Segment(payload); Starts(b, code, |payload| + 2) && b[4..] == payload
  {
  }

  // ---- SOF ---------------------------------------------------------------------------------------------------------

  lemma {:induction false} CompBytesAt(comps: seq<CompSpec>, i: nat)
    requires i < |comps| && forall k :: 0 <= k < |comps| ==> GoodComp(comps[k])
    ensures var b := CompBytes(comps);
            b[3 * i] == comps[i].id && b[3 * i + 1] == 16 * comps[i].h + comps[i].v && b[3 * i + 2] == comps[i].tq
  {
    if i > 0 {
      CompBytesAt(comps[1..], i - 1);
      var b, more := CompBytes(comps), CompBytes(comps[1..]);
      assert b[3 * i] == more[3 * (i - 1)] && b[3 * i + 1] == more[3 * (i - 1) + 1]
        && b[3 * i + 2] == more[3 * (i - 1) + 2];
    }
  }

  // Precision, height, width and the number of components; of each component its number, the
  // sampling factors and the quantization table.
  lemma SofBytes(code: byte, f: Frame)
    requires GoodFrame(f)
    ensures var b, n := [0xFF, code] + Segment(FrameBytes(f)), |f.comps|;
            && Starts(b, code, 8 + 3 * n)
            && b[4] == f.precision && TwoAt(b, 5) == f.height && TwoAt(b, 7) == f.width && b[9] == n
            && forall i :: 0 <= i < n ==>
                 b[10 + 3 * i] == f.comps[i].id && b[11 + 3 * i] == 16 * f.comps[i].h + f.comps[i].v
                 && b[12 + 3 * i] == f.comps[i].tq
  {
    hide CompBytes, Segment;
    var b, p, comps := [0xFF, code] + Segment(FrameBytes(f)), FrameBytes(f), CompBytes(f.comps);
    SegmentStarts(code, p);
    assert forall k :: 4 <= k < |b| ==> b[k] == b[4..][k - 4];
    forall i | 0 <= i < |f.comps|
      ensures b[10 + 3 * i] == f.comps[i].id && b[11 + 3 * i] == 16 * f.comps[i].h + f.comps[i].v
              && b[12 + 3 * i] == f.comps[i].tq
    {
      CompBytesAt(f.comps, i);
      assert p[6 + 3 * i] == comps[3 * i] && p[7 + 3 * i] == comps[3 * i + 1] && p[8 + 3 * i] == comps[3 * i + 2];
    }
  }

  // ---- SOS ---------------------------------------------------------------------------------------------------------

  lemma {:induction false} ScanCompBytesAt(comps: seq<ScanComp>, ids: seq<nat>, i: nat)
    requires i < |comps| && forall k :: 0 <= k < |comps| ==> GoodScanComp(comps[k], ids)
    ensures var b := ScanCompBytes(comps, ids);
            b[2 * i] == ids[comps[i].ci] && b[2 * i + 1] == 16 * comps[i].td + comps[i].ta
  {
    if i > 0 {
      ScanCompBytesAt(comps[1..], ids, i - 1);
      var b, more := ScanCompBytes(comps, ids), ScanCompBytes(comps[1..], ids);
      assert b[2 * i] == more[2 * (i - 1)] && b[2 * i + 1] == more[2 * (i - 1) + 1];
    }
  }

  // The number of components; of each its number, and in one byte the DC table in the upper
  // half and the AC table in the lower one, or 0 where it needs none; and the parameters.
  lemma SosBytes(p: ScanPlan, comps: seq<Component>)
    requires GoodComponents(comps) && GoodPlan(p, comps)
    ensures var b, n := [0xFF, 0xDA] + Segment(ScanBytes(HeaderOf(p, comps), Ids(comps))), |p.comps|;
            && M_SOS == 0xDA && Starts(b, 0xDA, 6 + 2 * n) && b[4] == n
            && (forall i :: 0 <= i < n ==>
                  var comp := comps[p.comps[i]];
                  && b[5 + 2 * i] == comp.spec.id
                  && b[6 + 2 * i] == (if p.ss == 0 && p.ah == 0 then 16 * comp.dcTbl else 0)
                                     + (if p.se > 0 then comp.acTbl else 0))
            && b[5 + 2 * n] == p.ss && b[6 + 2 * n] == p.se && b[7 + 2 * n] == 16 * p.ah + p.al
  {
    hide ScanCompBytes, Segment;
    var s, ids, n := HeaderOf(p, comps), Ids(comps), |p.comps|;
    var payload, more := ScanBytes(s, ids), ScanCompBytes(s.comps, ids);
    var b := [0xFF, 0xDA] + Segment(payload);
    SegmentStarts(0xDA, payload);
    assert forall k :: 4 <= k < |b| ==> b[k] == b[4..][k - 4];
    assert payload[1 + 2 * n] == p.ss && payload[2 + 2 * n] == p.se && payload[3 + 2 * n] == 16 * p.ah + p.al;
    forall i | 0 <= i < n
      ensures b[5 + 2 * i] == comps[p.comps[i]].spec.id
      ensures b[6 + 2 * i] == (if p.ss == 0 && p.ah == 0 then 16 * comps[p.comps[i]].dcTbl else 0)
                              + (if p.se > 0 then comps[p.comps[i]].acTbl else 0)
    {
      ScanCompBytesAt(s.comps, ids, i);
      assert payload[1 + 2 * i] == more[2 * i] && payload[2 + 2 * i] == more[2 * i + 1];
    }
  }

  // ---- DRI ---------------------------------------------------------------------------------------------------------

  lemma DriBytes(interval: nat)
    ensures var b := [0xFF, 0xDD] + Segment(TwoBytes(interval));
            M_DRI == 0xDD && Starts(b, 0xDD, 4) && TwoAt(b, 4) == interval % 0x1_0000
  {
  }

  // ---- DQT ---------------------------------------------------------------------------------------------------------

  lemma {:induction false} ValueBytesAt(prec: nat, vals: seq<nat>, i: nat)
    requires prec <= 1 && i < |vals| && forall k :: 0 <= k < |vals| ==> vals[k] < if prec == 1 then 0x1_0000 else 0x100
    ensures var b := ValueBytes(prec, vals);
            if prec == 1 then TwoAt(b, 2 * i) == vals[i] else b[i] == vals[i]
  {
    if i > 0 {
      ValueBytesAt(prec, vals[1..], i - 1);
      var b, more := ValueBytes(prec, vals), ValueBytes(prec, vals[1..]);
      if prec == 1 {
        assert b[2 * i] == more[2 * (i - 1)] && b[2 * i + 1] == more[2 * (i - 1) + 1];
      } else {
        assert b[i] == more[i - 1];
      }
    }
  }

  predicate Wide(q: seq<nat>, side: nat)
    requires GoodQuant(q) && Side(side)
  {
    exists i :: 0 <= i < side * side && q[Entry(side, i)] > 255
  }

  lemma EntryIs(index: nat, q: seq<nat>, side: nat)
    requires GoodQuant(q) && Side(side) && index < NUM_QUANT_TBLS
    ensures var e := EntryFor(index, q, side);
            && e.index == index && e.prec == (if Wide(q, side) then 1 else 0) && |e.vals| == side * side
            && forall i :: 0 <= i < |e.vals| ==> e.vals[i] == q[Entry(side, i)]
  {
    hide Entry;
    var vals := Sent(q, side);
    assert forall i :: 0 <= i < |vals| ==> vals[i] == q[Entry(side, i)];
    if Wide(q, side) {
      var i :| 0 <= i < side * side && q[Entry(side, i)] > 255;
      assert vals[i] > 255;
    }
  }

  // The precision in the upper half of a byte and the number in the lower one; then the values
  // in zigzag order, in two bytes each if one of them needs two.
  lemma DqtBytes(index: nat, q: seq<nat>, side: nat)
    requires GoodQuant(q) && Side(side) && index < NUM_QUANT_TBLS
    ensures var b, n, wide := [0xFF, 0xDB] + Segment(QuantBytes(EntryFor(index, q, side))), side * side, Wide(q, side);
            && M_DQT == 0xDB && Starts(b, 0xDB, if wide then 3 + 2 * n else 3 + n)
            && b[4] == index + (if wide then 16 else 0)
            && forall i :: 0 <= i < n ==>
                 if wide then TwoAt(b, 5 + 2 * i) == q[Entry(side, i)] else b[5 + i] == q[Entry(side, i)]
  {
    hide ValueBytes, Segment, Entry, GoodQuant, Wide, EntryFor;
    var e := EntryFor(index, q, side);
    EntryIs(index, q, side);
    var payload := QuantBytes(e);
    var b := [0xFF, 0xDB] + Segment(payload);
    SegmentStarts(0xDB, payload);
    forall i | 0 <= i < |e.vals|
      ensures if e.prec == 1 then TwoAt(b, 5 + 2 * i) == e.vals[i] else b[5 + i] == e.vals[i]
    {
      ValueBytesAt(e.prec, e.vals, i);
      assert forall k :: 4 <= k < |b| ==> b[k] == b[4..][k - 4];
    }
  }

  // ---- DHT ---------------------------------------------------------------------------------------------------------

  // The class in the upper half of a byte and the number in the lower one, how many codes there
  // are of each length, and the symbols in the order of their codes.
  lemma DhtBytes(index: nat, isAC: bool, t: HuffTbl)
    requires Sendable(t) && index < NUM_HUFFMAN_TBLS
    ensures var b, n := [0xFF, 0xC4] + Segment(HuffBytes(index, isAC, t)), Codes(t.bits);
            && M_DHT == 0xC4 && Starts(b, 0xC4, 19 + n) && b[4] == index + (if isAC then 16 else 0)
            && (forall l :: 1 <= l <= 16 ==> b[4 + l] == t.bits[l])
            && forall i :: 0 <= i < n ==> b[21 + i] == t.huffval[i]
  {
    hide Segment;
    var payload := HuffBytes(index, isAC, t);
    var b := [0xFF, 0xC4] + Segment(payload);
    SegmentStarts(0xC4, payload);
    assert forall k :: 4 <= k < |b| ==> b[k] == b[4..][k - 4];
  }

  // ---- DAC ---------------------------------------------------------------------------------------------------------

  // Entry k of a segment.
  function EntryAt(b: seq<byte>, k: nat): (byte, byte)
    requires 6 + 2 * k <= |b|
  {
    (b[4 + 2 * k], b[5 + 2 * k])
  }

  // The entry for the DC table t, with its bounds in the halves of a byte, or the one for the
  // AC table t, with its Kx.
  predicate Says(c: Conditioning, t: nat, isAC: bool, entry: (byte, byte))
    requires GoodConditioning(c) && t < NUM_ARITH_TBLS
  {
    if isAC then entry == (t + 16, c.acK[t]) else entry == (t, c.dcL[t] + 16 * c.dcU[t])
  }

  // How many entries come before those of table t.
  function Before(dc: seq<bool>, ac: seq<bool>, t: nat): nat
    requires |dc| == |ac| == NUM_ARITH_TBLS && t <= NUM_ARITH_TBLS
  {
    if t == 0 then 0 else Before(dc, ac, t - 1) + (if dc[t - 1] then 1 else 0) + if ac[t - 1] then 1 else 0
  }

  lemma {:induction false} EntriesSplit(dc: seq<bool>, ac: seq<bool>, t: nat)
    requires |dc| == |ac| == NUM_ARITH_TBLS && t <= NUM_ARITH_TBLS
    ensures Before(dc, ac, t) + Entries(dc, ac, t) == Entries(dc, ac, 0)
    decreases t
  {
    if t > 0 { EntriesSplit(dc, ac, t - 1); }
  }

  lemma Behind(all: seq<byte>, n: nat, one: seq<byte>, more: seq<byte>)
    requires n <= |all| && all[n..] == one + more
    ensures n + |one| <= |all| && all[n + |one|..] == more
  {
    assert all[n..][|one|..] == more;
  }

  lemma {:induction false} DacFrom(c: Conditioning, dc: seq<bool>, ac: seq<bool>, t: nat)
    requires GoodConditioning(c) && |dc| == |ac| == NUM_ARITH_TBLS && t <= NUM_ARITH_TBLS
    ensures 2 * Before(dc, ac, t) <= |DacBytes(c, dc, ac, 0)|
    ensures DacBytes(c, dc, ac, 0)[2 * Before(dc, ac, t)..] == DacBytes(c, dc, ac, t)
    decreases t
  {
    hide OneDac, DacBytes, Entries;
    EntriesSplit(dc, ac, t);
    if t > 0 {
      DacFrom(c, dc, ac, t - 1);
      DacStep(c, dc, ac, t - 1);
      Behind(DacBytes(c, dc, ac, 0), 2 * Before(dc, ac, t - 1), OneDac(c, dc, ac, t - 1), DacBytes(c, dc, ac, t));
    }
  }

  // One entry for each table that the scan needs, in the order of their numbers, a DC table
  // before the AC table of the same number.
  lemma DacBytesAre(c: Conditioning, dc: seq<bool>, ac: seq<bool>, t: nat)
    requires GoodConditioning(c) && |dc| == |ac| == NUM_ARITH_TBLS && t < NUM_ARITH_TBLS
    ensures var b, k := [0xFF, 0xCC] + Segment(DacBytes(c, dc, ac, 0)), Before(dc, ac, t);
            && M_DAC == 0xCC && Starts(b, 0xCC, 2 + 2 * Before(dc, ac, NUM_ARITH_TBLS))
            && (dc[t] ==> 6 + 2 * k <= |b| && Says(c, t, false, EntryAt(b, k)))
            && (ac[t] ==>
                  var j := if dc[t] then k + 1 else k;
                  6 + 2 * j <= |b| && Says(c, t, true, EntryAt(b, j)))
  {
    hide Segment, DacBytes, Before, Entries;
    var payload, k := DacBytes(c, dc, ac, 0), Before(dc, ac, t);
    var b := [0xFF, 0xCC] + Segment(payload);
    EntriesSplit(dc, ac, NUM_ARITH_TBLS);
    AllEntries(c, dc, ac);
    SegmentStarts(0xCC, payload);
    assert forall i :: 4 <= i < |b| ==> b[i] == b[4..][i - 4];
    DacFrom(c, dc, ac, t);
    DacStep(c, dc, ac, t);
    var one, rest := OneDac(c, dc, ac, t), DacBytes(c, dc, ac, t);
    assert forall i :: 0 <= i < |one| ==> rest[i] == one[i] && payload[2 * k + i] == rest[i];
  }

  lemma AllEntries(c: Conditioning, dc: seq<bool>, ac: seq<bool>)
    requires GoodConditioning(c) && |dc| == |ac| == NUM_ARITH_TBLS
    ensures |DacBytes(c, dc, ac, 0)| == 2 * Entries(dc, ac, 0) && Entries(dc, ac, NUM_ARITH_TBLS) == 0
  {
  }
}
