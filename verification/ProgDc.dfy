// Progressive DC scans: encode_mcu_DC_first and encode_mcu_DC_refine of jchuff.c,
// decode_mcu_DC_first and decode_mcu_DC_refine of jdhuff.c.
module ProgDc {
  import opened HuffGen
  import opened HuffCode
  import opened HuffBitReader
  import opened HuffTokens
  import opened HuffBlock
  import opened HuffSeqEncoder
  import opened ProgTokens
  import opened P = ProgEncoder

  // ---- The symbols -------------------------------------------------------------------------------------------------

  // A block of an MCU: the component it belongs to, among those of the scan, and its DC
  // coefficient.
  datatype Unit = Unit(ci: nat, dc: int)

  // The DC table of each component.
  predicate GoodUnits(tbls: seq<nat>, units: seq<Unit>) {
    && (forall i :: 0 <= i < |tbls| ==> tbls[i] < NUM_HUFF_TBLS)
    && (forall i :: 0 <= i < |units| ==> units[i].ci < |tbls|)
  }

  predicate DcFits(tbls: seq<nat>, last: seq<int>, units: seq<Unit>, al: nat)
    requires GoodUnits(tbls, units) && |last| == |tbls|
    decreases |units|
  {
    units == [] || (
      var u, v := units[0], Floored(units[0].dc, al);
      DcInRange(v - last[u.ci]) && DcFits(tbls, last[u.ci := v], units[1..], al))
  }

  function DcScanTokens(tbls: seq<nat>, last: seq<int>, units: seq<Unit>, al: nat): (toks: seq<Token>)
    requires GoodUnits(tbls, units) && |last| == |tbls| && DcFits(tbls, last, units, al)
    ensures TokensOk(toks)
    decreases |units|
  {
    if units == [] then []
    else
      var u, v := units[0], Floored(units[0].dc, al);
      DcTokens(tbls[u.ci], v - last[u.ci]) + DcScanTokens(tbls, last[u.ci := v], units[1..], al)
  }

  function LastDc(last: seq<int>, units: seq<Unit>, al: nat): (l: seq<int>)
    requires forall i :: 0 <= i < |units| ==> units[i].ci < |last|
    ensures |l| == |last|
    decreases |units|
  {
    if units == [] then last else LastDc(last[units[0].ci := Floored(units[0].dc, al)], units[1..], al)
  }

  // In a refinement scan each block takes one bit.
  function DcBit(dc: int, al: nat): bool {
    Floored(dc, al) % 2 == 1
  }

  function DcBits(units: seq<Unit>, al: nat): (b: seq<bool>)
    ensures |b| == |units| && forall i :: 0 <= i < |units| ==> b[i] == DcBit(units[i].dc, al)
  {
    seq(|units|, i requires 0 <= i < |units| => DcBit(units[i].dc, al))
  }

  // ---- Writing -----------------------------------------------------------------------------------------------------

  lemma DcStep(tbls: seq<nat>, last: seq<int>, units: seq<Unit>, al: nat, done: seq<Token>)
    requires GoodUnits(tbls, units) && |last| == |tbls| && units != []
    ensures var u, v := units[0], Floored(units[0].dc, al);
            var next := last[u.ci := v];
            && GoodUnits(tbls, units[1..])
            && (DcFits(tbls, last, units, al) <==> DcInRange(v - last[u.ci]) && DcFits(tbls, next, units[1..], al))
            && (DcFits(tbls, last, units, al) ==>
                  done + DcScanTokens(tbls, last, units, al) == (done + DcTokens(tbls[u.ci], v - last[u.ci]))
                      + DcScanTokens(tbls, next, units[1..], al))
  {
    hide DcTokens, DcInRange;
  }

  // The DC difference of one block.
  method EmitDiff(e: P.ProgEncoder, tbl: nat, diff: int) returns (ok: bool)
    requires e.Sound() && tbl < NUM_HUFF_TBLS
    modifies e`log, e.w, e.dcCounts, e.acCounts
    ensures ok <==> DcInRange(diff) && e.Passes(DcTokens(tbl, diff))
    ensures ok ==> e.Sound() && e.log == old(e.log) + DcTokens(tbl, diff)
  {
    hide e.Sound, GoodTables, Extra, TokensCoded;
    e.SoundBuffer();
    var temp2 := diff;
    var temp := diff;
    if temp < 0 {
      temp := -temp;
      temp2 := temp2 - 1;
    }
    var nbits := CountBits(temp);
    if nbits > MAX_COEF_BITS + 1 {
      return false;
    }
    ghost var sym, raw := [Sym(true, tbl, nbits)], if nbits == 0 then [] else [Raw(Extra(diff), nbits)];
    assert DcTokens(tbl, diff) == sym + raw;
    SplitCoded(e.tables, sym, raw);
    RawsPass(e.tables, raw);
    ok := e.EmitSymbol(true, tbl, nbits);
    if ok && nbits != 0 {
      LowBits(diff);
      e.EmitBits(Word(temp2), nbits, Extra(diff));
    }
  }

  ghost predicate DcPasses(e: P.ProgEncoder, tbls: seq<nat>, last: seq<int>, units: seq<Unit>, al: nat)
    requires GoodUnits(tbls, units) && |last| == |tbls|
  {
    DcFits(tbls, last, units, al) && e.Passes(DcScanTokens(tbls, last, units, al))
  }

  // encode_mcu_DC_first.
  method EncodeDcFirst(e: P.ProgEncoder, tbls: seq<nat>, units: seq<Unit>, al: nat) returns (ok: bool)
    requires e.Valid() && GoodUnits(tbls, units) && |e.lastDc| == |tbls|
    modifies e`log, e`lastDc, e.w, e.dcCounts, e.acCounts
    ensures |old(e.lastDc)| == |tbls|
    ensures ok <==> DcPasses(e, tbls, old(e.lastDc), units, al)
    ensures ok ==> e.Valid() && e.lastDc == LastDc(old(e.lastDc), units, al) && |e.lastDc| == |tbls|
                   && e.log == old(e.log) + DcScanTokens(tbls, old(e.lastDc), units, al)
  {
    hide e.Sound, e.Passes, GoodTables, DcFits, DcScanTokens, Floored, DcTokens, DcInRange;
    e.SoundBuffer();
    ghost var now, did: seq<Token> := units, [];
    for i := 0 to |units|
      invariant e.Valid() && |e.lastDc| == |tbls| && now == units[i..] && e.log == old(e.log) + did
      invariant LastDc(old(e.lastDc), units, al) == LastDc(e.lastDc, now, al)
      invariant DcPasses(e, tbls, old(e.lastDc), units, al) == DcPasses(e, tbls, e.lastDc, now, al)
      invariant DcPasses(e, tbls, e.lastDc, now, al) ==>
                  DcFits(tbls, old(e.lastDc), units, al)
                  && did + DcScanTokens(tbls, e.lastDc, now, al) == DcScanTokens(tbls, old(e.lastDc), units, al)
    {
      var ci := units[i].ci;
      var temp2 := Floored(units[i].dc, al);
      var diff := temp2 - e.lastDc[ci];
      DcPassesStep(e, tbls, e.lastDc, now, al, did);
      e.lastDc := e.lastDc[ci := temp2];
      ok := EmitDiff(e, tbls[ci], diff);
      if !ok {
        return;
      }
      did := did + DcTokens(tbls[ci], diff);
      now := now[1..];
    }
    DcDone(e, tbls, e.lastDc, al);
    assert did + [] == did;
    ok := true;
  }

  lemma DcPassesStep(e: P.ProgEncoder, tbls: seq<nat>, last: seq<int>, units: seq<Unit>, al: nat, done: seq<Token>)
    requires GoodTables(e.tables) && GoodUnits(tbls, units) && |last| == |tbls| && units != []
    ensures var u, v := units[0], Floored(units[0].dc, al);
            var next, diff := last[u.ci := v], v - last[u.ci];
            && (DcPasses(e, tbls, last, units, al) <==>
                  DcInRange(diff) && e.Passes(DcTokens(tbls[u.ci], diff)) && DcPasses(e, tbls, next, units[1..], al))
            && (DcPasses(e, tbls, last, units, al) ==>
                  done + DcScanTokens(tbls, last, units, al) == (done + DcTokens(tbls[u.ci], diff))
                      + DcScanTokens(tbls, next, units[1..], al))
  {
    hide DcTokens, DcInRange, GoodTables, Floored, TokensCoded;
    DcStep(tbls, last, units, al, done);
    var u, v := units[0], Floored(units[0].dc, al);
    if DcFits(tbls, last, units, al) {
      SplitCoded(e.tables, DcTokens(tbls[u.ci], v - last[u.ci]), DcScanTokens(tbls, last[u.ci := v], units[1..], al));
    }
  }

  lemma DcDone(e: P.ProgEncoder, tbls: seq<nat>, last: seq<int>, al: nat)
    requires GoodTables(e.tables) && GoodUnits(tbls, []) && |last| == |tbls|
    ensures DcPasses(e, tbls, last, [], al) && DcScanTokens(tbls, last, [], al) == []
  {
  }

  // encode_mcu_DC_refine: the bit at position al of each value.
  method EncodeDcRefine(e: P.ProgEncoder, units: seq<Unit>, al: nat)
    requires e.Valid()
    modifies e`log, e.w
    ensures e.Valid() && e.log == old(e.log) + RawBits(DcBits(units, al))
  {
    hide e.Sound, Floored;
    e.SoundBuffer();
    assert RawBits(DcBits(units[..0], al)) == [];
    for i := 0 to |units|
      invariant e.Valid() && e.log == old(e.log) + RawBits(DcBits(units[..i], al))
    {
      var bit := Floored(units[i].dc, al) % 2;
      e.EmitBits(bit, 1, bit);
      assert units[..i + 1] == units[..i] + [units[i]];
      assert DcBits(units[..i + 1], al) == DcBits(units[..i], al) + [DcBit(units[i].dc, al)];
      assert RawBits(DcBits(units[..i + 1], al)) == RawBits(DcBits(units[..i], al)) + [Raw(bit, 1)];
    }
    assert units[..|units|] == units;
  }

  // ---- Reading -----------------------------------------------------------------------------------------------------

  // The values that come out, in units of 2^al.
  datatype DcValues = DcValues(values: seq<int>, last: seq<int>)

  function ReadDcs(ts: seq<HuffTbl>, s: seq<bool>, cis: seq<nat>, last: seq<int>): Option<Parsed<DcValues>>
    requires (forall i :: 0 <= i < |ts| ==> WellFormed(ts[i])) && |last| == |ts|
        && forall i :: 0 <= i < |cis| ==> cis[i] < |ts|
    decreases |cis|
  {
    if cis == [] then Some(Parsed(DcValues([], last), s))
    else
      match ReadDc(ts[cis[0]], s)
      case None => None
      case Some(Parsed(diff, s1)) =>
        var v := last[cis[0]] + diff;
        match ReadDcs(ts, s1, cis[1..], last[cis[0] := v])
        case None => None
        case Some(Parsed(DcValues(vs, l), s2)) => Some(Parsed(DcValues([v] + vs, l), s2))
  }

  function CisOf(units: seq<Unit>): (c: seq<nat>)
    ensures |c| == |units| && forall i :: 0 <= i < |c| ==> c[i] == units[i].ci
  {
    seq(|units|, i requires 0 <= i < |units| => units[i].ci)
  }

  function ValuesOf(units: seq<Unit>, al: nat): (v: seq<int>)
    ensures |v| == |units| && forall i :: 0 <= i < |v| ==> v[i] == Floored(units[i].dc, al)
  {
    seq(|units|, i requires 0 <= i < |units| => Floored(units[i].dc, al))
  }

  // The decoder's tables are those of the encoder's codes.
  ghost predicate DcPaired(ts: seq<HuffTbl>, c: Tables, tbls: seq<nat>) {
    && GoodTables(c) && |ts| == |tbls|
    && forall i ::
        0 <= i < |tbls| ==> tbls[i] < NUM_HUFF_TBLS && Paired(ts[i], TableOf(c, true, tbls[i])) && WellFormed(ts[i])
  }

  lemma {:induction false} DcsRead(ts: seq<HuffTbl>, c: Tables, tbls: seq<nat>, last: seq<int>, units: seq<Unit>,
      al: nat, tail: seq<bool>)
    requires DcPaired(ts, c, tbls) && GoodUnits(tbls, units) && |last| == |tbls| && DcFits(tbls, last, units, al)
    requires TokensCoded(c, DcScanTokens(tbls, last, units, al))
    ensures ReadDcs(ts, BitsOf(c, DcScanTokens(tbls, last, units, al)) + tail, CisOf(units), last)
            == Some(Parsed(DcValues(ValuesOf(units, al), LastDc(last, units, al)), tail))
    decreases |units|
  {
    hide Paired, GoodTables, BitsOf, ReadDc, DcTokens, Floored, DcInRange, WellFormed, TokensCoded;
    if units == [] {
      NoTokensRead(c, tail);
      assert CisOf(units) == [] && ValuesOf(units, al) == [];
    } else {
      var u, v := units[0], Floored(units[0].dc, al);
      var head, more := DcTokens(tbls[u.ci], v - last[u.ci]), DcScanTokens(tbls, last[u.ci := v], units[1..], al);
      SplitCoded(c, head, more);
      BitsOfConcat(c, head, more);
      DcsRead(ts, c, tbls, last[u.ci := v], units[1..], al, tail);
      DcRead(ts[u.ci], c, tbls[u.ci], v - last[u.ci], BitsOf(c, more) + tail);
      assert BitsOf(c, head + more) + tail == BitsOf(c, head) + (BitsOf(c, more) + tail);
      assert CisOf(units)[1..] == CisOf(units[1..]);
      assert ValuesOf(units, al) == [v] + ValuesOf(units[1..], al);
    }
  }

  lemma NoTokensRead(c: Tables, tail: seq<bool>)
    requires GoodTables(c)
    ensures BitsOf(c, []) + tail == tail
  {
    assert [] + tail == tail;
  }
}
