// decode_mcu of jdhuff.c on whole MCUs: restarts, suspension, and the permanent
// state that only a completed MCU changes.
module HuffMcuDecoder {
  import opened MarkerSearch
  import opened Coefs
  import opened Bytes
  import opened EntropySegment
  import opened ZigzagOrder
  import opened HuffGen
  import opened HuffCode
  import opened HuffDerived
  import opened HuffBitWriter
  import opened HuffBitReader
  import opened HuffTokens
  import opened HuffBlock
  import opened HuffSeqEncoder
  import opened HuffRestart
  import opened HuffSeqScan
  import opened HuffSeqDecoder

  // ---- A block that was written, read back -------------------------------------------------------------------------

  // What a value is at the j-th place once the coefficients have been stored.
  lemma {:induction false} ApplyAt(order: seq<nat>, se: nat, b: seq<int>, es: seq<Event>, limit: nat, j: nat, x: int)
    requires ScanOrder(order, se) && |b| == 64 && Places(es, se + 1) && j <= se
    requires forall i :: 0 <= i < |es| && es[i].k == j && es[i].at < limit ==> es[i].v == x
    ensures (exists i :: 0 <= i < |es| && es[i].k == j && es[i].at < limit) ==>
        Apply(order, b, es, limit)[order[j]] == x
    ensures (forall i :: 0 <= i < |es| ==> es[i].k != j || es[i].at >= limit) ==>
        Apply(order, b, es, limit)[order[j]] == b[order[j]]
    decreases |es|
  {
    if es != [] {
      var n := |es| - 1;
      ApplyAt(order, se, b, es[..n], limit, j, x);
      assert order[es[n].k] == order[j] ==> es[n].k == j;
      assert forall i :: 0 <= i < n ==> es[..n][i] == es[i];
    }
  }

  // Every nonzero coefficient is among those found.
  lemma {:induction false} EventsCover(z: seq<int>, k: nat, r: nat, j: nat) returns (i: nat)
    requires r <= k <= j < |z| && z[j] != 0
    ensures i < |EventsOf(z, k, r)| && EventsOf(z, k, r)[i].k == j
    decreases |z| - k
  {
    if z[k] == 0 {
      i := EventsCover(z, k + 1, r + 1, j);
    } else if k == j {
      i := 0;
    } else {
      i := EventsCover(z, k + 1, 0, j);
      i := i + 1;
    }
  }

  // The first limit coefficients are there; of the others some may be.
  predicate Delivered(order: seq<nat>, se: nat, limit: nat, got: seq<int>, want: seq<int>)
    requires ScanOrder(order, se)
  {
    && |got| == |want| == 64
    && (forall k :: 0 <= k <= se && k < limit ==> got[order[k]] == want[order[k]])
    && (forall k :: limit <= k <= se ==> got[order[k]] == 0 || got[order[k]] == want[order[k]])
  }

  predicate Cleared(b: seq<int>) {
    |b| == 64 && forall i :: 0 <= i < 64 ==> b[i] == 0
  }

  lemma StoredIsDelivered(order: seq<nat>, se: nat, limit: nat, before: seq<int>, want: seq<int>)
    requires ScanOrder(order, se) && Cleared(before) && |want| == 64 && IsJcoef(want[0]) && limit <= se + 1
    ensures var es := EventsOf(Band(order, se, want), 1, 0);
            Places(es, |order|) && Delivered(order, se, limit, Stored(order, before, want[0], es, limit), want)
  {
    hide EventsOf, Apply;
    var z := Band(order, se, want);
    var es := EventsOf(z, 1, 0);
    var b := before[0 := ToJcoef(want[0])];
    if limit > 0 {
      forall j | 0 <= j <= se
        ensures var v := Apply(order, b, es, limit)[order[j]];
                if j < limit then v == want[order[j]] else v == 0 || v == want[order[j]]
      {
        ApplyAt(order, se, b, es, limit, j, z[j]);
        if 1 <= j < limit && z[j] != 0 { var i := EventsCover(z, 1, 0, j); }
        if j > 0 { assert order[j] != order[0]; }
      }
    }
  }

  lemma BlockReadBack(dc: HuffTbl, ac: HuffTbl, c: Tables, dcTbl: nat, acTbl: nat, z: seq<int>, lastDc: int,
      tail: seq<bool>)
    requires GoodTables(c) && dcTbl < NUM_HUFF_TBLS && acTbl < NUM_HUFF_TBLS && WellFormed(ac)
    requires Paired(dc, TableOf(c, true, dcTbl)) && (|z| > 1 ==> Paired(ac, TableOf(c, false, acTbl)))
    requires Writable(c, dcTbl, acTbl, z, lastDc)
    ensures ReadBlock(dc, ac, BitsOf(c, BlockTokens(dcTbl, acTbl, z, lastDc)) + tail, |z| - 1)
            == Some(Parsed(BlockRead(z[0] - lastDc, EventsOf(z, 1, 0)), tail))
  {
    hide Paired, GoodTables, ReadAc, ReadDc, AcTokens, DcTokens, EventsOf, BitsOf, TokensCoded;
    var d, a := DcTokens(dcTbl, z[0] - lastDc), AcTokens(acTbl, z, 1, 0);
    SplitCoded(c, d, a);
    BitsOfConcat(c, d, a);
    DcRead(dc, c, dcTbl, z[0] - lastDc, BitsOf(c, a) + tail);
    assert BitsOf(c, d + a) + tail == BitsOf(c, d) + (BitsOf(c, a) + tail);
    if |z| > 1 {
      AcRead(ac, c, acTbl, z, 1, 0, tail);
    } else {
      NoAc(ac, c, acTbl, z, tail);
    }
  }

  lemma NoAc(ac: HuffTbl, c: Tables, acTbl: nat, z: seq<int>, tail: seq<bool>)
    requires GoodTables(c) && acTbl < NUM_HUFF_TBLS && WellFormed(ac) && |z| == 1
    ensures AcTokens(acTbl, z, 1, 0) == [] && EventsOf(z, 1, 0) == []
    ensures ReadAc(ac, BitsOf(c, []) + tail, 1, 0) == Some(Parsed([], tail))
  {
    assert BitsOf(c, []) + tail == tail;
  }

  // ---- The decoder's side of a scan --------------------------------------------------------------------------------

  // The decoder's tables by number, and how many coefficients of each block are wanted:
  // none of any block of a component that is not needed.
  datatype Plan = Plan(scan: Scan, dc: seq<DTbl>, ac: seq<DTbl>, limits: seq<nat>)

  predicate GoodPlan(p: Plan) {
    && GoodScan(p.scan) && |p.dc| == |p.ac| == NUM_HUFF_TBLS && |p.limits| == |p.scan.membership|
    && (forall i :: 0 <= i < |p.limits| ==> p.limits[i] <= p.scan.se + 1)
    && (forall i, j ::
        0 <= i < j < |p.limits| && p.scan.membership[i] == p.scan.membership[j] ==>
        (p.limits[i] == 0 <==> p.limits[j] == 0))
    && (forall ci :: 0 <= ci < |p.scan.comps| ==> GoodPair(p.dc[p.scan.comps[ci].dcTbl], p.ac[p.scan.comps[ci].acTbl]))
  }

  predicate GoodPair(dc: DTbl, ac: DTbl) {
    DecodesWith(dc.pub, dc) && DcTable(dc.pub) && DecodesWith(ac.pub, ac)
  }

  // The encoder's codes are for the tables that the decoder has.
  ghost predicate SameTables(p: Plan, c: Tables)
    requires GoodPlan(p)
  {
    && GoodTables(c)
    && forall ci :: 0 <= ci < |p.scan.comps| ==>
         && Paired(p.dc[p.scan.comps[ci].dcTbl].pub, c.dc[p.scan.comps[ci].dcTbl])
         && (p.scan.se > 0 ==> Paired(p.ac[p.scan.comps[ci].acTbl].pub, c.ac[p.scan.comps[ci].acTbl]))
  }

  // The decoder's predictions are the encoder's, as far as they are needed.
  predicate Follows(p: Plan, last: seq<int>, enc: seq<int>)
    requires GoodPlan(p)
  {
    && |last| == |enc| == |p.scan.comps|
    && forall i :: 0 <= i < |p.limits| && p.limits[i] > 0 ==> last[p.scan.membership[i]] == enc[p.scan.membership[i]]
  }

  lemma FollowsNext(p: Plan, last: seq<int>, enc: seq<int>, i: nat, dc: int)
    requires GoodPlan(p) && Follows(p, last, enc) && i < |p.limits|
    ensures var ci := p.scan.membership[i];
            Follows(p, if p.limits[i] == 0 then last else last[ci := last[ci] + (dc - enc[ci])], enc[ci := dc])
  {
    hide GoodPair;
  }

  predicate DistinctBlocks(mcu: seq<array<int>>) {
    && (forall i :: 0 <= i < |mcu| ==> mcu[i].Length == 64)
    && (forall i, j :: 0 <= i < j < |mcu| ==> mcu[i] != mcu[j])
  }

  predicate JcoefMcu(mcu: seq<seq<int>>) {
    forall i :: 0 <= i < |mcu| ==> |mcu[i]| == 64 && IsJcoef(mcu[i][0])
  }

  // The bits to come are those of the blocks of want from the i-th on, and tail.
  ghost predicate Expects(p: Plan, c: Tables, enc: seq<int>, want: seq<seq<int>>, i: nat, bits: seq<bool>,
      insufficient: bool, tail: seq<bool>)
    requires GoodPlan(p) && |enc| == |p.scan.comps|
  {
    && SameTables(p, c) && GoodMcu(p.scan, want) && JcoefMcu(want) && McuWritable(p.scan, c, enc, want, i)
    && !insufficient && bits == BitsOf(c, McuTokens(p.scan, enc, want, i)) + tail
  }

  // The i-th block reads back, and then the blocks after it are to come.
  lemma ExpectsBlock(p: Plan, c: Tables, enc: seq<int>, want: seq<seq<int>>, i: nat, bits: seq<bool>, tail: seq<bool>)
      returns (more: seq<bool>)
    requires GoodPlan(p) && |enc| == |p.scan.comps| && i < |p.limits| && Expects(p, c, enc, want, i, bits, false, tail)
    ensures var ci := p.scan.membership[i];
            var comp := p.scan.comps[ci];
            && WellFormed(p.dc[comp.dcTbl].pub) && WellFormed(p.ac[comp.acTbl].pub)
            && ReadBlock(p.dc[comp.dcTbl].pub, p.ac[comp.acTbl].pub, bits, p.scan.se)
               == Some(Parsed(BlockRead(want[i][0] - enc[ci], EventsOf(BandOf(p.scan, want, i), 1, 0)), more))
            && Expects(p, c, enc[ci := want[i][0]], want, i + 1, more, false, tail)
  {
    hide BitsOf, ReadBlock, McuTokens, McuInRange, TokensCoded, Paired, GoodTables, BlockTokens, EventsOf, DcTable,
        Writable, DecodesWith;
    var ci := p.scan.membership[i];
    var comp, z, next := p.scan.comps[ci], BandOf(p.scan, want, i), enc[ci := want[i][0]];
    assert GoodPair(p.dc[comp.dcTbl], p.ac[comp.acTbl]);
    TablesWell(p.dc[comp.dcTbl]);
    TablesWell(p.ac[comp.acTbl]);
    McuStep(p.scan, c, enc, want, i, []);
    var toks, rest := BlockTokens(comp.dcTbl, comp.acTbl, z, enc[ci]), McuTokens(p.scan, next, want, i + 1);
    assert [] + McuTokens(p.scan, enc, want, i) == McuTokens(p.scan, enc, want, i) && [] + toks == toks;
    BitsOfConcat(c, toks, rest);
    more := BitsOf(c, rest) + tail;
    assert bits == BitsOf(c, toks) + more;
    BlockReadBack(p.dc[comp.dcTbl].pub, p.ac[comp.acTbl].pub, c, comp.dcTbl, comp.acTbl, z, enc[ci], more);
  }

  lemma ExpectsNothing(p: Plan, c: Tables, enc: seq<int>, want: seq<seq<int>>, bits: seq<bool>, tail: seq<bool>)
    requires GoodPlan(p) && |enc| == |p.scan.comps| && Expects(p, c, enc, want, |p.limits|, bits, false, tail)
    ensures bits == tail && LastAfter(p.scan, enc, want, |p.limits|) == enc
  {
    assert [] + tail == tail;
  }

  class HuffDecoder {
    const plan: Plan
    const input: seq<byte>     // all that the source will ever deliver
    var avail: nat             // how much of it has arrived
    var state: BitState
    var lastDc: seq<int>
    var restartsToGo: nat
    var nextRestartNum: nat    // kept by the marker reader

    ghost predicate Valid() reads this {
      && GoodPlan(plan) && |lastDc| == |plan.scan.comps|
      && avail <= |input| && GoodState(state, |input|) && nextRestartNum < 8
    }

    constructor (plan: Plan, input: seq<byte>, avail: nat, pos: nat)
      requires GoodPlan(plan) && avail <= |input| && pos <= |input|
      ensures Valid() && this.plan == plan && this.input == input && this.avail == avail
      ensures state == BitState(pos, 0, 0, 0, false) && lastDc == ZeroDc(plan.scan)
      ensures restartsToGo == plan.scan.interval && nextRestartNum == 0
    {
      this.plan, this.input, this.avail := plan, input, avail;
      state := BitState(pos, 0, 0, 0, false);
      lastDc := ZeroDc(plan.scan);
      restartsToGo, nextRestartNum := plan.scan.interval, 0;
    }

    // Decodes the blocks of one MCU. When the source has to wait, nothing permanent has
    // changed; when it does not, the outcome does not depend on how much has arrived.
    // Blocks that were written come back.
    method DecodeBlocks(mcu: seq<array<int>>, ghost exp: bool, ghost c: Tables, ghost enc: seq<int>,
        ghost want: seq<seq<int>>, ghost tail: seq<bool>)
      returns (ok: bool)
      requires Valid() && |mcu| == |plan.limits| && DistinctBlocks(mcu)
      requires exp ==> |enc| == |lastDc| && GoodMcu(plan.scan, want)
      requires exp ==>
          Follows(plan, lastDc, enc) && Expects(plan, c, enc, want, 0, Coming(input, state), state.insufficient, tail)
      requires exp ==> forall i :: 0 <= i < |mcu| ==> Cleared(mcu[i][..])
      modifies this`state, this`lastDc, mcu
      ensures Valid()
      ensures !ok ==> state == old(state) && lastDc == old(lastDc)
      ensures old(AheadOf(input, avail, state)).Marker? ==>
          ok && AheadOf(input, avail, state) == old(AheadOf(input, avail, state))
      ensures exp && ok ==>
                && !state.insufficient && Coming(input, state) == tail
                && Follows(plan, lastDc, LastAfter(plan.scan, enc, want, 0))
                && forall i ::
                    0 <= i < |mcu| ==> Delivered(plan.scan.order, plan.scan.se, plan.limits[i], mcu[i][..], want[i])
    {
      hide Expects, Follows, Delivered, LastAfter, Coming, ReadBlock, GoodPair, MarkerAfter;
      if state.insufficient {
        ok := true;
        NotExpected(plan, c, enc, want, 0, Coming(input, state), tail);
        return;
      }
      var br := new BitReader(input, avail, state);
      var last := lastDc;
      ghost var e := enc;
      var i := 0;
      while i < |mcu|
        invariant 0 <= i <= |mcu| && fresh(br) && br.Valid() && br.input == input && br.avail == avail
        invariant |last| == |plan.scan.comps| && |e| == |enc| && state == old(state) && lastDc == old(lastDc)
        invariant br.Steady(Horizon(old(AheadOf(input, avail, state)), old(AheadOf(input, |input|, state))), true)
        invariant exp ==> Follows(plan, last, e) && Expects(plan, c, e, want, i, br.Rest(), br.insufficient, tail)
        invariant exp ==> LastAfter(plan.scan, enc, want, 0) == LastAfter(plan.scan, e, want, i)
        invariant exp ==> forall j :: i <= j < |mcu| ==> Cleared(mcu[j][..])
        invariant exp ==>
            forall j :: 0 <= j < i ==> Delivered(plan.scan.order, plan.scan.se, plan.limits[j], mcu[j][..], want[j])
      {
        var ci := plan.scan.membership[i];
        var comp := plan.scan.comps[ci];
        PairOf(plan, ci);
        ghost var more: seq<bool>, before, e1 := [], mcu[i][..], e;
        if exp { more := ExpectsAt(plan, c, e, want, i, br.Rest(), br.insufficient, tail); }
        var dc;
        ok, dc := DecodeBlock(br, plan.dc[comp.dcTbl], plan.ac[comp.acTbl], mcu[i], plan.scan.order, plan.scan.se,
            plan.limits[i], last[ci]);
        if !ok {
          return;
        }
        if exp {
          e := e[ci := want[i][0]];
          BlockDelivered(plan, c, last, e1, want, i, before, mcu[i][..], dc);
        }
        last := last[ci := dc];
        i := i + 1;
      }
      if exp { Finish(plan, c, e, want, br.Rest(), br.insufficient, tail); }
      state := br.State();
      lastDc := last;
      ok := true;
    }

    // process_restart
    method ProcessRestart() returns (r: Restart)
      requires Valid() && plan.scan.interval > 0
      modifies this`state, this`lastDc, this`restartsToGo, this`nextRestartNum
      ensures Valid() && state.bitsLeft == 0
      ensures var f := old(AheadOf(input, avail, state));
              f.Marker? ==>
                if f.code == RST0 + old(nextRestartNum) then
                  r == Restarted && state.pos == f.next && state.marker == 0 && !state.insufficient
                else r == OutOfStep
      ensures r == Restarted ==>
                && nextRestartNum == (old(nextRestartNum) + 1) % 8 && restartsToGo == plan.scan.interval
                && lastDc == ZeroDc(plan.scan)
    {
      hide GoodPlan, MarkerAfter;
      r, state := ReadRestart(input, avail, state, nextRestartNum);
      if r == Restarted {
        nextRestartNum := (nextRestartNum + 1) % 8;
        lastDc := ZeroDc(plan.scan);
        restartsToGo := plan.scan.interval;
      }
    }
  }

  lemma NotExpected(p: Plan, c: Tables, enc: seq<int>, want: seq<seq<int>>, i: nat, bits: seq<bool>, tail: seq<bool>)
    requires GoodPlan(p)
    ensures |enc| == |p.scan.comps| ==> !Expects(p, c, enc, want, i, bits, true, tail)
  {
  }

  lemma PairOf(p: Plan, ci: nat)
    requires GoodPlan(p) && ci < |p.scan.comps|
    ensures var comp := p.scan.comps[ci];
            DecodesWith(p.dc[comp.dcTbl].pub, p.dc[comp.dcTbl]) && DcTable(p.dc[comp.dcTbl].pub)
                && DecodesWith(p.ac[comp.acTbl].pub, p.ac[comp.acTbl])
  {
    assert GoodPair(p.dc[p.scan.comps[ci].dcTbl], p.ac[p.scan.comps[ci].acTbl]);
  }

  lemma ExpectsAt(p: Plan, c: Tables, enc: seq<int>, want: seq<seq<int>>, i: nat, bits: seq<bool>, dry: bool,
      tail: seq<bool>) returns (more: seq<bool>)
    requires GoodPlan(p) && |enc| == |p.scan.comps| && i < |p.limits| && Expects(p, c, enc, want, i, bits, dry, tail)
    ensures var ci := p.scan.membership[i];
            var comp := p.scan.comps[ci];
            && !dry && |want| == |p.limits| && |want[i]| == 64 && IsJcoef(want[i][0])
            && WellFormed(p.dc[comp.dcTbl].pub) && WellFormed(p.ac[comp.acTbl].pub)
            && ReadBlock(p.dc[comp.dcTbl].pub, p.ac[comp.acTbl].pub, bits, p.scan.se)
               == Some(Parsed(
                    BlockRead(want[i][0] - enc[ci], EventsOf(Band(p.scan.order, p.scan.se, want[i]), 1, 0)),
                    more))
            && Expects(p, c, enc[ci := want[i][0]], want, i + 1, more, false, tail)
            && LastAfter(p.scan, enc, want, i) == LastAfter(p.scan, enc[ci := want[i][0]], want, i + 1)
  {
    more := ExpectsBlock(p, c, enc, want, i, bits, tail);
  }

  lemma BlockDelivered(p: Plan, c: Tables, last: seq<int>, enc: seq<int>, want: seq<seq<int>>, i: nat, before: seq<int>,
      after: seq<int>, dc: int)
    requires GoodPlan(p) && i < |p.limits| == |want| && |want[i]| == 64 && IsJcoef(want[i][0])
    requires Follows(p, last, enc) && Cleared(before)
    requires var ci := p.scan.membership[i];
             var es := EventsOf(Band(p.scan.order, p.scan.se, want[i]), 1, 0);
             && |last| == |enc| == |p.scan.comps|
             && dc == (if p.limits[i] == 0 then last[ci] else last[ci] + (want[i][0] - enc[ci]))
             && Places(es, |p.scan.order|)
             && after == Stored(p.scan.order, before, last[ci] + (want[i][0] - enc[ci]), es, p.limits[i])
    ensures Delivered(p.scan.order, p.scan.se, p.limits[i], after, want[i])
    ensures Follows(p, last[p.scan.membership[i] := dc], enc[p.scan.membership[i] := want[i][0]])
  {
    hide EventsOf, Apply, Delivered, GoodPair;
    var ci := p.scan.membership[i];
    FollowsNext(p, last, enc, i, want[i][0]);
    StoredIsDelivered(p.scan.order, p.scan.se, p.limits[i], before, want[i]);
    assert last[ci := last[ci]] == last;
  }

  lemma Finish(p: Plan, c: Tables, enc: seq<int>, want: seq<seq<int>>, bits: seq<bool>, dry: bool, tail: seq<bool>)
    requires GoodPlan(p) && |enc| == |p.scan.comps| && Expects(p, c, enc, want, |p.limits|, bits, dry, tail)
    ensures !dry && bits == tail && LastAfter(p.scan, enc, want, |p.limits|) == enc
  {
    ExpectsNothing(p, c, enc, want, bits, tail);
  }
}
