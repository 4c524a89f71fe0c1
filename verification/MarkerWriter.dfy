// jcmarker.c: the routines that write the tables and headers.
module MarkerWriter {
  import opened Bytes
  import opened NaturalOrders
  import opened HuffGen
  import opened Markers

  datatype Written = Wrote | NoTable | TooBig

  // What the frame says of a component, and the tables its scans use.
  datatype Component = Component(spec: CompSpec, dcTbl: nat, acTbl: nat)

  // A quantization table, and whether it is in the file already.
  datatype QuantTbl = QuantTbl(quantval: seq<nat>, sent: bool)

  datatype HuffSlot = NoHuff | HuffSlot(tbl: HuffTbl, sent: bool)

  datatype QuantSlot = NoQuant | QuantSlot(tbl: QuantTbl)

  // UINT16 values.
  predicate GoodQuant(q: seq<nat>) {
    |q| == DCTSIZE2 && forall i :: 0 <= i < DCTSIZE2 ==> q[i] < 0x1_0000
  }

  // The coefficients of the blocks in use, in the order they are sent.
  function Sent(q: seq<nat>, side: nat): (vals: seq<nat>)
    requires GoodQuant(q) && Side(side)
    ensures |vals| == Count(side) && forall i :: 0 <= i < |vals| ==> vals[i] == q[Entry(side, i)] < 0x1_0000
  {
    seq(Count(side), i requires 0 <= i < Count(side) => q[Entry(side, i)])
  }

  predicate AnyLarge(vals: seq<nat>) { exists i :: 0 <= i < |vals| && vals[i] > 255 }

  function EntryFor(index: nat, q: seq<nat>, side: nat): (e: QuantEntry)
    requires GoodQuant(q) && Side(side) && index < NUM_QUANT_TBLS
    ensures GoodQuantEntry(e)
  {
    QuantEntry(index, if AnyLarge(Sent(q, side)) then 1 else 0, Sent(q, side))
  }

  lemma {:induction false} BytesSnoc(prec: nat, vals: seq<nat>, v: nat)
    requires prec <= 1
    ensures ValueBytes(prec, vals + [v]) == ValueBytes(prec, vals) + if prec == 1 then TwoBytes(v) else [v % 256]
    decreases |vals|
  {
    if vals == [] {
      assert ([] + [v])[0] == v && ([] + [v])[1..] == [];
    } else {
      assert (vals + [v])[1..] == vals[1..] + [v];
      BytesSnoc(prec, vals[1..], v);
    }
  }

  // The components of a scan, and the progression parameters.
  datatype ScanPlan = ScanPlan(comps: seq<nat>, ss: nat, se: nat, ah: nat, al: nat)

  predicate GoodPlan(p: ScanPlan, comps: seq<Component>) {
    && |p.comps| <= 4 && p.ss < 64 && p.se < 64 && p.ah < 16 && p.al < 16
    && forall i :: 0 <= i < |p.comps| ==> p.comps[i] < |comps|
  }

  predicate GoodComponents(comps: seq<Component>) {
    && |comps| < 256
    && forall i :: 0 <= i < |comps| ==>
         && GoodComp(comps[i].spec)
         && comps[i].dcTbl < NUM_ARITH_TBLS && comps[i].acTbl < NUM_ARITH_TBLS
  }

  function Ids(comps: seq<Component>): (ids: seq<nat>)
    ensures |ids| == |comps| && forall i :: 0 <= i < |ids| ==> ids[i] == comps[i].spec.id
  {
    seq(|comps|, i requires 0 <= i < |comps| => comps[i].spec.id)
  }

  // DC needs no table for a refinement scan, AC none when it is not present.
  predicate UsesDc(p: ScanPlan) { p.ss == 0 && p.ah == 0 }

  predicate UsesAc(p: ScanPlan) { p.se != 0 }

  function HeaderOf(p: ScanPlan, comps: seq<Component>): (s: ScanHeader)
    requires GoodComponents(comps) && GoodPlan(p, comps)
    ensures GoodScanHeader(s, Ids(comps)) && |s.comps| == |p.comps|
    ensures (s.ss, s.se, s.ah, s.al) == (p.ss, p.se, p.ah, p.al)
  {
    ScanHeader(seq(|p.comps|, i requires 0 <= i < |p.comps| =>
                 ScanComp(p.comps[i],
                          if UsesDc(p) then comps[p.comps[i]].dcTbl else 0,
                          if UsesAc(p) then comps[p.comps[i]].acTbl else 0)),
               p.ss, p.se, p.ah, p.al)
  }

  // Which conditioning tables the scan uses.
  function InUse(p: ScanPlan, comps: seq<Component>, n: nat, dc: bool): (f: seq<bool>)
    requires GoodComponents(comps) && GoodPlan(p, comps) && n <= |p.comps|
    ensures Flags(f)
    ensures forall t :: 0 <= t < NUM_ARITH_TBLS ==>
              (f[t] <==> (if dc then UsesDc(p) else UsesAc(p))
                         && exists i ::
                             0 <= i < n && (if dc then comps[p.comps[i]].dcTbl else comps[p.comps[i]].acTbl) == t)
  {
    if n == 0 then seq(NUM_ARITH_TBLS, _ => false)
    else
      var f := InUse(p, comps, n - 1, dc);
      if dc then (if UsesDc(p) then f[comps[p.comps[n - 1]].dcTbl := true] else f)
      else (if UsesAc(p) then f[comps[p.comps[n - 1]].acTbl := true] else f)
  }

  class Writer {
    var out: seq<byte>
    var quant: seq<QuantSlot>
    var dcHuff: seq<HuffSlot>
    var acHuff: seq<HuffSlot>

    predicate Valid() reads this {
      && |quant| == NUM_QUANT_TBLS && |dcHuff| == |acHuff| == NUM_HUFFMAN_TBLS
      && (forall i :: 0 <= i < NUM_QUANT_TBLS && quant[i].QuantSlot? ==> GoodQuant(quant[i].tbl.quantval))
      && (forall i :: 0 <= i < NUM_HUFFMAN_TBLS && dcHuff[i].HuffSlot? ==> Sendable(dcHuff[i].tbl))
      && (forall i :: 0 <= i < NUM_HUFFMAN_TBLS && acHuff[i].HuffSlot? ==> Sendable(acHuff[i].tbl))
    }

    constructor (quant: seq<QuantSlot>, dcHuff: seq<HuffSlot>, acHuff: seq<HuffSlot>, dest: seq<byte>)
      requires |quant| == NUM_QUANT_TBLS && |dcHuff| == |acHuff| == NUM_HUFFMAN_TBLS
      requires forall i :: 0 <= i < NUM_QUANT_TBLS && quant[i].QuantSlot? ==> GoodQuant(quant[i].tbl.quantval)
      requires forall i :: 0 <= i < NUM_HUFFMAN_TBLS && dcHuff[i].HuffSlot? ==> Sendable(dcHuff[i].tbl)
      requires forall i :: 0 <= i < NUM_HUFFMAN_TBLS && acHuff[i].HuffSlot? ==> Sendable(acHuff[i].tbl)
      ensures Valid() && out == dest && this.quant == quant && this.dcHuff == dcHuff && this.acHuff == acHuff
    {
      out, this.quant, this.dcHuff, this.acHuff := dest, quant, dcHuff, acHuff;
    }

    method EmitByte(val: byte)
      modifies this`out
      ensures out == old(out) + [val]
    {
      out := out + [val];
    }

    method EmitMarker(mark: byte)
      modifies this`out
      ensures out == old(out) + [0xFF, mark]
    {
      EmitByte(0xFF);
      EmitByte(mark);
    }

    method Emit2Bytes(value: nat)
      modifies this`out
      ensures out == old(out) + TwoBytes(value)
    {
      EmitByte(value / 256 % 256);
      EmitByte(value % 256);
    }

    // emit_dqt. A table is sent once only.
    method EmitDqt(index: nat, side: nat) returns (r: Written, prec: nat)
      requires Valid() && index < NUM_QUANT_TBLS && Side(side)
      modifies this`out, this`quant
      ensures Valid() && (r == NoTable <==> old(quant)[index].NoQuant?) && r != TooBig
      ensures r == NoTable ==> out == old(out) && quant == old(quant)
      ensures r == Wrote ==>
                var q := old(quant)[index].tbl;
                && prec == EntryFor(index, q.quantval, side).prec
                && quant == old(quant)[index := QuantSlot(q.(sent := true))]
                && out == old(out) + if q.sent then []
                    else [0xFF, M_DQT] + Segment(QuantBytes(EntryFor(index, q.quantval, side)))
    {
      hide Segment, QuantBytes;
      r, prec := NoTable, 0;
      if quant[index].NoQuant? {
        return;
      }
      var q := quant[index].tbl;
      prec := Precision(q.quantval, side);
      if !q.sent {
        EmitQuantTable(index, q.quantval, side, prec);
        quant := quant[index := QuantSlot(q.(sent := true))];
      } else {
        assert out == old(out) + [] && quant[index := QuantSlot(q.(sent := true))] == quant;
      }
      r := Wrote;
    }

    method Precision(q: seq<nat>, side: nat) returns (prec: nat)
      requires GoodQuant(q) && Side(side)
      ensures prec == if AnyLarge(Sent(q, side)) then 1 else 0
    {
      hide Entry;
      prec := 0;
      ghost var vals := Sent(q, side);
      for i := 0 to Count(side)
        invariant prec == if AnyLarge(vals[..i]) then 1 else 0
      {
        assert vals[..i + 1] == vals[..i] + [vals[i]];
        LargeSnoc(vals[..i], vals[i]);
        if q[Entry(side, i)] > 255 { prec := 1; }
      }
      assert vals[..Count(side)] == vals;
    }

    method EmitQuantTable(index: nat, q: seq<nat>, side: nat, prec: nat)
      requires GoodQuant(q) && Side(side) && index < NUM_QUANT_TBLS && prec == EntryFor(index, q, side).prec
      modifies this`out
      ensures out == old(out) + ([0xFF, M_DQT] + Segment(QuantBytes(EntryFor(index, q, side))))
    {
      hide Entry, GoodQuant, TwoBytes, ValueBytes;
      ghost var e := EntryFor(index, q, side);
      EmitMarker(M_DQT);
      Emit2Bytes(if prec != 0 then 2 * Count(side) + 1 + 2 else Count(side) + 1 + 2);
      EmitByte(index + 16 * prec);
      EmitValues(q, side, prec);
      Together(old(out), [0xFF, M_DQT], TwoBytes(|QuantBytes(e)| + 2), [index + 16 * prec], ValueBytes(prec, e.vals));
    }

    lemma Together(before: seq<byte>, a: seq<byte>, b: seq<byte>, c: seq<byte>, d: seq<byte>)
      ensures before + a + b + c + d == before + (a + (b + (c + d)))
    {
    }

    lemma LargeSnoc(vals: seq<nat>, v: nat)
      ensures AnyLarge(vals + [v]) <==> AnyLarge(vals) || v > 255
    {
      if AnyLarge(vals) {
        var i :| 0 <= i < |vals| && vals[i] > 255;
        assert (vals + [v])[i] > 255;
      }
      if v > 255 { assert (vals + [v])[|vals|] > 255; }
    }

    method EmitValues(q: seq<nat>, side: nat, prec: nat)
      requires GoodQuant(q) && Side(side) && prec <= 1
      modifies this`out
      ensures out == old(out) + ValueBytes(prec, Sent(q, side))
    {
      hide Entry;
      ghost var vals := Sent(q, side);
      assert vals[..0] == [];
      for i := 0 to Count(side)
        invariant out == old(out) + ValueBytes(prec, vals[..i])
      {
        var qval := q[Entry(side, i)];
        BytesSnoc(prec, vals[..i], qval);
        assert vals[..i + 1] == vals[..i] + [qval];
        if prec != 0 {
          EmitByte(qval / 256 % 256);
        }
        EmitByte(qval % 256);
      }
      assert vals[..Count(side)] == vals;
    }

    // emit_dht
    method EmitDht(index: nat, isAC: bool) returns (r: Written)
      requires Valid() && index < NUM_HUFFMAN_TBLS
      modifies this`out, this`dcHuff, this`acHuff
      ensures Valid() && r != TooBig
      ensures var slots := if isAC then old(acHuff) else old(dcHuff);
              && (r == NoTable <==> slots[index].NoHuff?)
              && (r == Wrote ==>
                    && (if isAC then acHuff == slots[index := slots[index].(sent := true)] && dcHuff == old(dcHuff)
                        else dcHuff == slots[index := slots[index].(sent := true)] && acHuff == old(acHuff))
                    && out == old(out) + if slots[index].sent then []
                        else [0xFF, M_DHT] + Segment(HuffBytes(index, isAC, slots[index].tbl)))
    {
      hide HuffBytes, Sendable;
      var slot := if isAC then acHuff[index] else dcHuff[index];
      if slot.NoHuff? {
        return NoTable;
      }
      if !slot.sent {
        EmitHuffTable(index, isAC, slot.tbl);
      } else {
        assert out == old(out) + [];
      }
      if isAC {
        acHuff := acHuff[index := slot.(sent := true)];
      } else {
        dcHuff := dcHuff[index := slot.(sent := true)];
      }
      r := Wrote;
    }

    method EmitHuffTable(index: nat, isAC: bool, tbl: HuffTbl)
      requires index < NUM_HUFFMAN_TBLS && Sendable(tbl)
      modifies this`out
      ensures out == old(out) + ([0xFF, M_DHT] + Segment(HuffBytes(index, isAC, tbl)))
    {
      hide TwoBytes, Plain;
      EmitMarker(M_DHT);
      var length := 0;
      for i := 1 to 17
        invariant length == CodesUpTo(tbl.bits, i - 1)
        modifies {}
      {
        length := length + tbl.bits[i];
      }
      Emit2Bytes(length + 2 + 1 + 16);
      var cls: byte := index + if isAC then 0x10 else 0;
      EmitByte(cls);
      EmitPlain(tbl.bits, 1, 17);
      EmitPlain(tbl.huffval, 0, length);
      assert tbl.huffval[0..length] == tbl.huffval[..Codes(tbl.bits)] && tbl.bits[1..17] == tbl.bits[1..];
      ghost var lengths, vals := Plain(tbl.bits[1..]), Plain(tbl.huffval[..Codes(tbl.bits)]);
      Together(old(out) + [0xFF, M_DHT], [], TwoBytes(length + 2 + 1 + 16), [cls] + lengths, vals);
      assert out == old(out) + [0xFF, M_DHT] + [] + TwoBytes(length + 2 + 1 + 16) + ([cls] + lengths) + vals;
    }

    method EmitPlain(v: seq<nat>, from: nat, to: nat)
      requires from <= to <= |v| && forall i :: from <= i < to ==> v[i] < 256
      modifies this`out
      ensures out == old(out) + Plain(v[from..to])
    {
      for i := from to to
        invariant out == old(out) + Plain(v[from..i])
      {
        EmitByte(v[i]);
        assert Plain(v[from..i + 1]) == Plain(v[from..i]) + [v[i]];
      }
    }

    // Which tables the components of the scan use.
    method FindInUse(p: ScanPlan, comps: seq<Component>) returns (dcInUse: seq<bool>, acInUse: seq<bool>)
      requires GoodComponents(comps) && GoodPlan(p, comps)
      ensures dcInUse == InUse(p, comps, |p.comps|, true) && acInUse == InUse(p, comps, |p.comps|, false)
    {
      dcInUse, acInUse := seq(NUM_ARITH_TBLS, _ => false), seq(NUM_ARITH_TBLS, _ => false);
      for i := 0 to |p.comps|
        invariant dcInUse == InUse(p, comps, i, true) && acInUse == InUse(p, comps, i, false)
      {
        var comp := comps[p.comps[i]];
        if p.ss == 0 && p.ah == 0 { dcInUse := dcInUse[comp.dcTbl := true]; }
        if p.se != 0 { acInUse := acInUse[comp.acTbl := true]; }
      }
    }

    method CountTables(dcInUse: seq<bool>, acInUse: seq<bool>) returns (length: nat)
      requires Flags(dcInUse) && Flags(acInUse)
      ensures length == Entries(dcInUse, acInUse, 0)
    {
      length := 0;
      for i := 0 to NUM_ARITH_TBLS
        invariant length + Entries(dcInUse, acInUse, i) == Entries(dcInUse, acInUse, 0)
      {
        length := length + (if dcInUse[i] then 1 else 0) + if acInUse[i] then 1 else 0;
      }
    }

    // emit_dac: one marker for all tables that the scan uses.
    method EmitDac(p: ScanPlan, comps: seq<Component>, c: Conditioning)
      requires GoodComponents(comps) && GoodPlan(p, comps) && GoodConditioning(c)
      modifies this`out
      ensures var dc, ac := InUse(p, comps, |p.comps|, true), InUse(p, comps, |p.comps|, false);
              out == old(out) + ([0xFF, M_DAC] + Segment(DacBytes(c, dc, ac, 0)))
    {
      hide DacBytes, TwoBytes, GoodConditioning, GoodComponents, GoodPlan, InUse;
      var dcInUse, acInUse := FindInUse(p, comps);
      var length := CountTables(dcInUse, acInUse);
      EmitMarker(M_DAC);
      Emit2Bytes(length * 2 + 2);
      EmitTables(c, dcInUse, acInUse);
      ghost var all := DacBytes(c, dcInUse, acInUse, 0);
      Together(old(out), [0xFF, M_DAC], TwoBytes(|all| + 2), [], all);
      assert [] + all == all && old(out) + [0xFF, M_DAC] + TwoBytes(|all| + 2) + [] == old(out) + [0xFF, M_DAC]
          + TwoBytes(|all| + 2);
    }

    method EmitTables(c: Conditioning, dcInUse: seq<bool>, acInUse: seq<bool>)
      requires GoodConditioning(c) && Flags(dcInUse) && Flags(acInUse)
      modifies this`out
      ensures out == old(out) + DacBytes(c, dcInUse, acInUse, 0)
    {
      hide OneDac, GoodConditioning, Flags, DacBytes;
      for i := 0 to NUM_ARITH_TBLS
        invariant out + DacBytes(c, dcInUse, acInUse, i) == old(out) + DacBytes(c, dcInUse, acInUse, 0)
      {
        ghost var was := out;
        DacStep(c, dcInUse, acInUse, i);
        EmitTable(c, dcInUse, acInUse, i);
        Shift(was, OneDac(c, dcInUse, acInUse, i), DacBytes(c, dcInUse, acInUse, i + 1));
      }
      DacStep(c, dcInUse, acInUse, NUM_ARITH_TBLS);
      assert out + [] == out;
    }

    method EmitTable(c: Conditioning, dcInUse: seq<bool>, acInUse: seq<bool>, i: nat)
      requires GoodConditioning(c) && Flags(dcInUse) && Flags(acInUse) && i < NUM_ARITH_TBLS
      modifies this`out
      ensures out == old(out) + OneDac(c, dcInUse, acInUse, i)
    {
      if dcInUse[i] {
        EmitByte(i);
        EmitByte(c.dcL[i] + 16 * c.dcU[i]);
      }
      assert out == old(out) + if dcInUse[i] then [i, c.dcL[i] + 16 * c.dcU[i]] else [];
      if acInUse[i] {
        EmitByte(i + 0x10);
        EmitByte(c.acK[i]);
      }
    }

    // emit_dri
    method EmitDri(interval: nat)
      modifies this`out
      ensures out == old(out) + ([0xFF, M_DRI] + Segment(TwoBytes(interval)))
    {
      EmitMarker(M_DRI);
      Emit2Bytes(4);
      Emit2Bytes(interval);
    }

    // emit_sof
    method EmitSof(code: byte, precision: byte, height: nat, width: nat, comps: seq<Component>) returns (r: Written)
      requires GoodComponents(comps)
      modifies this`out
      ensures r == if height > 65535 || width > 65535 then TooBig else Wrote
      ensures r == TooBig ==> out == old(out) + ([0xFF, code] + TwoBytes(3 * |comps| + 8))
      ensures r == Wrote ==>
                var f := FrameOf(precision, height, width, comps);
                GoodFrame(f) && out == old(out) + ([0xFF, code] + Segment(FrameBytes(f)))
    {
      hide TwoBytes, FrameBytes, GoodFrame, GoodComponents;
      EmitMarker(code);
      Emit2Bytes(3 * |comps| + 2 + 5 + 1);
      if height > 65535 || width > 65535 {
        return TooBig;
      }
      ghost var f := FrameOf(precision, height, width, comps);
      EmitFrame(precision, height, width, comps, f);
      Together(old(out), [0xFF, code], TwoBytes(|FrameBytes(f)| + 2), [], FrameBytes(f));
      assert [] + FrameBytes(f) == FrameBytes(f)
        && old(out) + [0xFF, code] + TwoBytes(|FrameBytes(f)| + 2) + [] == old(out) + [0xFF, code]
            + TwoBytes(|FrameBytes(f)| + 2);
      r := Wrote;
    }

    method EmitFrame(precision: byte, height: nat, width: nat, comps: seq<Component>, ghost f: Frame)
      requires GoodComponents(comps) && f == FrameOf(precision, height, width, comps) && GoodFrame(f)
      modifies this`out
      ensures out == old(out) + FrameBytes(f)
    {
      hide TwoBytes, GoodComponents, CompBytes;
      EmitByte(precision);
      Emit2Bytes(height);
      Emit2Bytes(width);
      var n: byte := NumComponents(comps);
      EmitByte(n);
      ghost var head := [precision] + TwoBytes(height) + TwoBytes(width) + [n];
      assert out == old(out) + head;
      EmitComps(comps, f);
      assert old(out) + head + CompBytes(f.comps) == old(out) + FrameBytes(f);
    }

    function NumComponents(comps: seq<Component>): (n: byte)
      requires GoodComponents(comps)
      ensures n == |comps|
    {
      |comps|
    }

    method EmitComps(comps: seq<Component>, ghost f: Frame)
      requires GoodComponents(comps) && |f.comps| == |comps|
          && forall i :: 0 <= i < |comps| ==> f.comps[i] == comps[i].spec
      requires GoodFrame(f)
      modifies this`out
      ensures out == old(out) + CompBytes(f.comps)
    {
      hide OneComp, GoodComp;
      for ci := 0 to |comps|
        invariant out + CompBytes(f.comps[ci..]) == old(out) + CompBytes(f.comps)
      {
        ghost var was, left := out, f.comps[ci..];
        assert left[1..] == f.comps[ci + 1..] && left[0] == comps[ci].spec;
        EmitComp(comps[ci].spec);
        Shift(was, OneComp(left[0]), CompBytes(left[1..]));
      }
      assert out + [] == out;
    }

    lemma Shift(was: seq<byte>, one: seq<byte>, more: seq<byte>)
      ensures was + (one + more) == (was + one) + more
    {
    }

    method EmitComp(c: CompSpec)
      requires GoodComp(c)
      modifies this`out
      ensures out == old(out) + OneComp(c)
    {
      EmitByte(c.id);
      EmitByte(16 * c.h + c.v);
      EmitByte(c.tq);
    }

    // emit_sos
    method EmitSos(p: ScanPlan, comps: seq<Component>)
      requires GoodComponents(comps) && GoodPlan(p, comps)
      modifies this`out
      ensures out == old(out) + ([0xFF, M_SOS] + Segment(ScanBytes(HeaderOf(p, comps), Ids(comps))))
    {
      ghost var s, ids := HeaderOf(p, comps), Ids(comps);
      ghost var length := TwoBytes(|ScanBytes(s, ids)| + 2);
      EmitMarker(M_SOS);
      Emit2Bytes(2 * |p.comps| + 2 + 1 + 3);
      ghost var start := out;
      EmitByte(|p.comps|);
      EmitScanComps(p, comps, s, ids);
      EmitByte(p.ss);
      EmitByte(p.se);
      EmitByte(16 * p.ah + p.al);
      assert out == start + ScanBytes(s, ids);
      assert (old(out) + [0xFF, M_SOS] + length) + ScanBytes(s, ids) == old(out)
          + ([0xFF, M_SOS] + (length + ScanBytes(s, ids)));
    }

    method EmitScanComps(p: ScanPlan, comps: seq<Component>, ghost s: ScanHeader, ghost ids: seq<nat>)
      requires GoodComponents(comps) && GoodPlan(p, comps) && s == HeaderOf(p, comps) && ids == Ids(comps)
      modifies this`out
      ensures out == old(out) + ScanCompBytes(s.comps, ids)
    {
      hide OneScanComp, GoodScanComp, GoodComp;
      for i := 0 to |p.comps|
        invariant out + ScanCompBytes(s.comps[i..], ids) == old(out) + ScanCompBytes(s.comps, ids)
      {
        ghost var was, left := out, s.comps[i..];
        assert left[1..] == s.comps[i + 1..];
        EmitScanComp(p, comps, i, s, ids);
        Shift(was, OneScanComp(left[0], ids), ScanCompBytes(left[1..], ids));
      }
      assert out + [] == out;
    }

    method EmitScanComp(p: ScanPlan, comps: seq<Component>, i: nat, ghost s: ScanHeader, ghost ids: seq<nat>)
      requires GoodComponents(comps) && GoodPlan(p, comps) && s == HeaderOf(p, comps) && ids == Ids(comps)
          && i < |p.comps|
      modifies this`out
      ensures out == old(out) + OneScanComp(s.comps[i], ids)
    {
      var comp := comps[p.comps[i]];
      EmitByte(comp.spec.id);
      var td := if p.ss == 0 && p.ah == 0 then comp.dcTbl else 0;
      var ta := if p.se != 0 then comp.acTbl else 0;
      EmitByte(16 * td + ta);
    }
  }

  function FrameOf(precision: nat, height: nat, width: nat, comps: seq<Component>): (f: Frame)
    ensures |f.comps| == |comps| && forall i :: 0 <= i < |comps| ==> f.comps[i] == comps[i].spec
    ensures precision < 256 && height < 0x1_0000 && width < 0x1_0000 && GoodComponents(comps) ==> GoodFrame(f)
  {
    Frame(precision, height, width, seq(|comps|, i requires 0 <= i < |comps| => comps[i].spec))
  }
}
