// jcarith.c, encode_mcu: walking a block and coding the decisions of
// ArithBinarise, one arith_encode call at a time.
module ArithMcuEncoder {
  import opened Division
  import opened Bytes
  import opened ArithInterval
  import opened ArithBinarise
  import opened ArithBins
  import opened ArithSegments
  import opened MarkerSearch
  import opened Aritab
  import opened Intervals
  import opened ZigzagOrder
  import opened E = ArithEncoder

  lemma Assoc(h: seq<Decision>, x: Decision, r: seq<Decision>)
    ensures h + ([x] + r) == (h + [x]) + r
  {
  }

  // "(m & v) ? 1 : 0" for a power of two m
  function TestBit(v: nat, m: nat): (b: int)
    requires m > 0
    ensures 0 <= b <= 1
  {
    v / m % 2
  }

  predicate SplitAt(v: nat, d: nat, q: nat, r: nat) {
    v == q * d + r && r < d
  }

  lemma SplitAtTop(v: nat, m: nat)
    requires m <= v < 2 * m
    ensures SplitAt(v, m, 1, v - m)
  {
  }

  lemma BitTest(v: nat, m: nat, q: nat, r: nat)
    requires m > 0 && SplitAt(v, 2 * m, q, r)
    ensures TestBit(v, m) == if r >= m then 1 else 0
    ensures if r >= m then SplitAt(v, m, 2 * q + 1, r - m) else SplitAt(v, m, 2 * q, r)
  {
    TwiceTimes(q, m);
    if r >= m {
      OneMore(2 * q, m);
      DivIs(v, m, 2 * q + 1, r - m);
    } else {
      DivIs(v, m, 2 * q, r);
    }
  }

  lemma TwiceTimes(q: nat, m: nat)
    ensures q * (2 * m) == (2 * q) * m
  {
  }

  lemma OneMore(p: nat, m: nat)
    ensures (p + 1) * m == p * m + m
  {
  }

  lemma {:induction false} ShlPow2(i: nat, k: nat)
    ensures Shl(Pow2(i), k) == Pow2(i + k)
    decreases k
  {
    if k > 0 { ShlPow2(i + 1, k - 1); }
  }

  // Encode one decision, given the string it starts.
  method Put(e: Encoder, st: nat, bit: int, ghost rest: seq<Decision>)
    requires e.Valid() && e.stats.Length == BINS && st < BINS && 0 <= bit <= 1
    modifies e, e.stats
    ensures e.Valid() && e.SameSegment()
    ensures e.history + rest == old(e.history) + ([Decision(st, bit)] + rest)
  {
    hide Encoder.Valid;
    Assoc(e.history, Decision(st, bit), rest);
    e.ArithEncode(st, bit);
  }

  method PutBit(e: Encoder, st: nat, v: nat, m: nat, ghost j: nat, ghost q: nat, ghost r: nat,
      ghost next: seq<Decision>)
    returns (ghost q': nat, ghost r': nat)
    requires e.Valid() && e.stats.Length == BINS && st < BINS
    requires m == Pow2(j) && r < 2 * m && SplitAt(v, 2 * m, q, r)
    modifies e, e.stats
    ensures e.Valid() && e.SameSegment() && r' < m && SplitAt(v, m, q', r')
    ensures e.history + Pattern(st, r', j, next) == old(e.history) + Pattern(st, r, j + 1, next)
  {
    hide Encoder.Valid, TestBit, SplitAt;
    BitTest(v, m, q, r);
    q', r' := if r >= m then 2 * q + 1 else 2 * q, if r >= m then r - m else r;
    Put(e, st, TestBit(v, m), Pattern(st, r', j, next));
  }

  // "while (m >>= 1) arith_encode(cinfo, st, (m & v) ? 1 : 0)" for v = 2^n + low
  method PutPattern(e: Encoder, st: nat, v: nat, m0: nat, ghost next: seq<Decision>)
    requires e.Valid() && e.stats.Length == BINS && st < BINS
    requires v > 0 && m0 == Pow2(Log2(v))
    modifies e, e.stats
    ensures e.Valid() && e.SameSegment()
    ensures e.history + next == old(e.history) + Pattern(st, v - m0, Log2(v), next)
  {
    hide Encoder.Valid, SplitAt, Log2;
    SplitAtTop(v, m0);
    ghost var j: nat, q: nat, r: nat := Log2(v), 1, v - m0;
    var m := m0 / 2;
    while m > 0
      invariant e.Valid() && e.SameSegment()
      invariant m == (if j == 0 then 0 else Pow2(j - 1)) && r < Pow2(j) && SplitAt(v, Pow2(j), q, r)
      invariant e.history + Pattern(st, r, j, next) == old(e.history) + Pattern(st, v - m0, Log2(v), next)
      decreases j
    {
      assert Pow2(j) == 2 * m;
      j := j - 1;
      q, r := PutBit(e, st, v, m, j, q, r, next);
      m := m / 2;
    }
  }

  // "while (v2 >>= 1) { arith_encode(cinfo, st, 1); m <<= 1; st += 1; }" and the
  // closing "arith_encode(cinfo, st, 0)"
  method PutCategory(e: Encoder, st0: nat, u0: nat, m0: nat, ghost next: seq<Decision>) returns (st: nat, m: nat)
    requires e.Valid() && e.stats.Length == BINS && 0 < u0 && st0 + Log2(u0) < BINS
    modifies e, e.stats
    ensures e.Valid() && e.SameSegment()
    ensures e.history + next == old(e.history) + Category(st0, Log2(u0), next)
    ensures st == st0 + Log2(u0) && m == Shl(m0, Log2(u0))
  {
    hide Encoder.Valid;
    st, m := st0, m0;
    ghost var u := u0;
    var v2 := u0 / 2;
    while v2 > 0
      invariant e.Valid() && e.SameSegment() && u > 0 && v2 == u / 2
      invariant st + Log2(u) == st0 + Log2(u0) && Shl(m, Log2(u)) == Shl(m0, Log2(u0))
      invariant e.history + Category(st, Log2(u), next) == old(e.history) + Category(st0, Log2(u0), next)
      decreases v2
    {
      Put(e, st, 1, Category(st + 1, Log2(u) - 1, next));
      m := 2 * m;
      st := st + 1;
      u := v2;
      v2 := v2 / 2;
    }
    Put(e, st, 0, next);
  }

  // Figures F.8 and F.9 for a DC difference; also returns m for the conditioning.
  method PutDcMagnitude(e: Encoder, tbl: nat, sp: nat, v: nat, ghost next: seq<Decision>) returns (m: nat)
    requires e.Valid() && e.stats.Length == BINS && tbl < NUM_ARITH_TBLS && sp < BINS && v < MAG_LIMIT
    modifies e, e.stats
    ensures e.Valid() && e.SameSegment()
    ensures e.history + next == old(e.history) + DcMagnitude(tbl, sp, v, next)
    ensures m == if v == 0 then 0 else Pow2(Log2(v))
  {
    hide Encoder.Valid, Category, Pattern, Log2, Shl;
    if v == 0 {
      Put(e, sp, 0, next);
      m := 0;
    } else {
      Log2Limit(v);
      ghost var n := Log2(v);
      ShlPow2(0, n);
      var x := DcBin(tbl, 20);
      ghost var tail := Pattern(x + n + 14, v - Pow2(n), n, next);
      Put(e, sp, 1, Category(x, n, tail));
      var st;
      st, m := PutCategory(e, x, v, 1, tail);
      PutPattern(e, st + 14, v, m, next);
    }
  }

  method PutAcMagnitude(e: Encoder, tbl: nat, k: nat, kx: nat, s: nat, v: nat, ghost next: seq<Decision>)
    requires e.Valid() && e.stats.Length == BINS && tbl < NUM_ARITH_TBLS && s < BINS && v < MAG_LIMIT
    modifies e, e.stats
    ensures e.Valid() && e.SameSegment()
    ensures e.history + next == old(e.history) + AcMagnitude(tbl, k, kx, s, v, next)
  {
    hide Encoder.Valid, Category, Pattern, Log2, Shl;
    if v == 0 {
      Put(e, s, 0, next);
    } else if v == 1 {
      Put(e, s, 1, [Decision(s, 0)] + next);
      Put(e, s, 0, next);
    } else {
      Log2Limit(v);
      ghost var n := Log2(v);
      ShlPow2(1, n - 1);
      var x := AcCategoryBin(tbl, k, kx);
      ghost var tail := Pattern(x + n + 13, v - Pow2(n), n, next);
      ghost var cat := Category(x, n - 1, tail);
      Put(e, s, 1, [Decision(s, 1)] + cat);
      Put(e, s, 1, cat);
      Log2Half(v);
      var st, m := PutCategory(e, x, v / 2, 2, tail);
      PutPattern(e, st + 14, v, m, next);
    }
  }

  // Figure F.4. The encoder's context update reads differently from NextCtx: it
  // sets a small category first and adds 8 when the difference was large.
  method PutDc(e: Encoder, c: Comp, ctx: nat, diff: int, ghost next: seq<Decision>) returns (ctx': nat)
    requires e.Valid() && e.stats.Length == BINS && GoodComp(c) && GoodCtx(ctx) && InLimit(diff)
    modifies e, e.stats
    ensures e.Valid() && e.SameSegment()
    ensures e.history + next == old(e.history) + DcDecisions(c, ctx, diff, next)
    ensures ctx' == NextCtx(c, diff) && Grown(old(e.history), e.history, DcArea(c.dcTbl))
  {
    hide Encoder.Valid, DcMagnitude, Log2, Grown, Leads, DcArea, DcBin;
    DcBinInArea(c, ctx);
    DcInArea(c, ctx, diff, next);
    ghost var was := e.history;
    var st := DcBin(c.dcTbl, ctx);
    if diff == 0 {
      Put(e, st, 0, next);
      GrownByCoding(was, e.history, DcDecisions(c, ctx, diff, next), next, DcArea(c.dcTbl));
      return 0;
    }
    var v := diff;
    if v < 0 { v := -v; }
    v := v - 1;
    var sign := if diff > 0 then 0 else 1;
    var sp := st + 2 + sign;
    ghost var tail := DcMagnitude(c.dcTbl, sp, v, next);
    Put(e, st, 1, [Decision(st + 1, sign)] + tail);
    Put(e, st + 1, sign, tail);
    ctx' := if diff > 0 then 4 else 8;
    var m := PutDcMagnitude(e, c.dcTbl, sp, v, next);
    if m < Pow2(c.dcL) / 2 {
      ctx' := 0;
    } else if m > Pow2(c.dcU) / 2 {
      ctx' := ctx' + 8;
    }
    GrownByCoding(was, e.history, DcDecisions(c, ctx, diff, next), next, DcArea(c.dcTbl));
  }

  // Figure F.5.
  method PutAc(e: Encoder, c: Comp, z: seq<int>, limSe: nat, ghost next: seq<Decision>)
    requires e.Valid() && e.stats.Length == BINS && GoodComp(c) && GoodBlock(z, limSe)
    modifies e, e.stats
    ensures e.Valid() && e.SameSegment()
    ensures e.history + next == old(e.history) + AcDecisions(c, z, limSe, next)
    ensures Grown(old(e.history), e.history, AcArea(c.acTbl))
  {
    hide Encoder.Valid, Grown, Leads, AcArea;
    AcInArea(c, z, limSe, next);
    var ke: nat := limSe;
    while ke > 0 && z[ke] == 0
      invariant ke <= limSe && EobIndex(z, ke) == EobIndex(z, limSe)
    {
      ke := ke - 1;
    }
    assert ke == EobIndex(z, limSe);
    var k := 1;
    while k <= ke
      invariant e.Valid() && e.SameSegment() && 1 <= k <= limSe + 1
      invariant e.history + AcFrom(c, z, limSe, k, ke, next) == old(e.history) + AcDecisions(c, z, limSe, next)
      decreases limSe + 1 - k
    {
      Put(e, EobBin(c, k), 0, RunFrom(c, z, limSe, k, ke, next));
      k := PutRun(e, c, z, limSe, k, ke, next);
    }
    if k <= limSe {
      Put(e, EobBin(c, k), 1, next);
    }
    GrownByCoding(old(e.history), e.history, AcDecisions(c, z, limSe, next), next, AcArea(c.acTbl));
  }

  // Skip a run of zeros and code the nonzero coefficient that ends it.
  method PutRun(e: Encoder, c: Comp, z: seq<int>, limSe: nat, k0: nat, ke: nat, ghost next: seq<Decision>)
      returns (k: nat)
    requires e.Valid() && e.stats.Length == BINS && GoodComp(c) && GoodBlock(z, limSe)
    requires 1 <= k0 <= ke <= limSe && z[ke] != 0
    modifies e, e.stats
    ensures e.Valid() && e.SameSegment() && k0 < k <= ke + 1
    ensures e.history + AcFrom(c, z, limSe, k, ke, next) == old(e.history) + RunFrom(c, z, limSe, k0, ke, next)
  {
    hide Encoder.Valid;
    k := k0;
    while z[k] == 0
      invariant e.Valid() && e.SameSegment() && k0 <= k <= ke
      invariant e.history + RunFrom(c, z, limSe, k, ke, next) == old(e.history) + RunFrom(c, z, limSe, k0, ke, next)
      decreases ke - k
    {
      Put(e, EobBin(c, k) + 1, 0, RunFrom(c, z, limSe, k + 1, ke, next));
      k := k + 1;
    }
    PutNonzero(e, c, z[k], k, AcFrom(c, z, limSe, k + 1, ke, next));
    k := k + 1;
  }

  method PutNonzero(e: Encoder, c: Comp, coef: int, k: nat, ghost next: seq<Decision>)
    requires e.Valid() && e.stats.Length == BINS && GoodComp(c) && 1 <= k < 64 && InLimit(coef) && coef != 0
    modifies e, e.stats
    ensures e.Valid() && e.SameSegment()
    ensures e.history + next == old(e.history) + NonzeroAt(c, coef, k, next)
  {
    hide Encoder.Valid;
    var st := EobBin(c, k);
    var v := if coef > 0 then coef else -coef;
    var sign := if coef > 0 then 0 else 1;
    ghost var tail := AcMagnitude(c.acTbl, k, c.acK, st + 2, v - 1, next);
    Put(e, st + 1, 1, [Decision(FIXED_BIN, sign)] + tail);
    Put(e, FIXED_BIN, sign, tail);
    PutAcMagnitude(e, c.acTbl, k, c.acK, st + 2, v - 1, next);
  }

  // ---- The scan ---------------------------------------------------------------------

  predicate Blocks(mcu: seq<seq<int>>) {
    forall i :: 0 <= i < |mcu| ==> |mcu[i]| == 64
  }

  function Zigzags(order: seq<nat>, mcu: seq<seq<int>>): (zs: seq<seq<int>>)
    requires GoodOrder(order) && Blocks(mcu)
    ensures |zs| == |mcu|
  {
    if mcu == [] then [] else [Zigzag(order, mcu[0])] + Zigzags(order, mcu[1..])
  }

  // Peeling the first block off an MCU.
  lemma McuStep(s: Scan, p: Pred, order: seq<nat>, mcu: seq<seq<int>>, next: seq<Decision>)
    requires GoodScan(s) && GoodPred(s, p) && GoodOrder(order) && Blocks(mcu)
    requires 0 < |mcu| <= |s.membership| && Codable(s, p, Zigzags(order, mcu))
    ensures var z, ci := Zigzag(order, mcu[0]), s.membership[|s.membership| - |mcu|];
            var p' := NextPred(s, p, ci, z[0]);
            && GoodBlock(z, s.limSe) && InLimit(z[0] - p.last[ci]) && Codable(s, p', Zigzags(order, mcu[1..]))
            && McuDecisions(s, p, Zigzags(order, mcu), next)
               == DcDecisions(s.comps[ci], p.ctx[ci], z[0] - p.last[ci],
                    AcDecisions(s.comps[ci], z, s.limSe, McuDecisions(s, p', Zigzags(order, mcu[1..]), next)))
            && FinalPred(s, p, Zigzags(order, mcu)) == FinalPred(s, p', Zigzags(order, mcu[1..]))
  {
    hide DcDecisions, AcDecisions, NextPred, GoodComp;
    assert Zigzags(order, mcu)[1..] == Zigzags(order, mcu[1..]);
  }

  lemma McuEnd(s: Scan, p: Pred, order: seq<nat>, mcu: seq<seq<int>>, next: seq<Decision>)
    requires GoodScan(s) && GoodPred(s, p) && GoodOrder(order) && mcu == []
    ensures Codable(s, p, Zigzags(order, mcu)) && McuDecisions(s, p, Zigzags(order, mcu), next) == next
    ensures FinalPred(s, p, Zigzags(order, mcu)) == p
  {
  }

  // What the next MCU is predicted from: nothing when a restart marker comes first.
  function PredHere(s: Scan, toGo: nat, p: Pred): (r: Pred)
    requires GoodScan(s) && GoodPred(s, p)
    ensures GoodPred(s, r)
  {
    if IsDue(s.interval, toGo) then StartPred(s) else p
  }

  lemma OneMoreSegment(t: Table, segs: seq<seq<Decision>>, datas: seq<seq<byte>>, ds: seq<Decision>, data: seq<byte>,
      dest: seq<byte>, from: seq<byte>)
    requires AllCoded(t, segs, datas) && GoodDecisions(ds, BINS) && from == dest + Closed(datas, 0)
    requires Contains(IntervalOf(t, ds), data) && (data != [] ==> data[|data| - 1] != 0)
    ensures AllCoded(t, segs + [ds], datas + [data])
    ensures from + Stuff(data) + [0xFF, RST0 + |segs| % 8] == dest + Closed(datas + [data], 0)
  {
    hide Contains, IntervalOf, Stuff, Closed, Coded, GoodDecisions;
    assert Coded(t, ds, data) by { IsCoded(t, ds, data); }
    ClosedSnoc(datas, data, 0);
    Behind(dest, Closed(datas, 0), Stuff(data), [0xFF, RST0 + |segs| % 8]);
  }

  lemma IsCoded(t: Table, ds: seq<Decision>, data: seq<byte>)
    requires GoodDecisions(ds, BINS) && Contains(IntervalOf(t, ds), data) && (data != [] ==> data[|data| - 1] != 0)
    ensures Coded(t, ds, data)
  {
  }

  lemma Behind(a: seq<byte>, b: seq<byte>, c: seq<byte>, d: seq<byte>)
    ensures a + b + c + d == a + (b + (c + d))
  {
  }

  class ScanEncoder {
    const e: Encoder
    const scan: Scan
    const order: seq<nat>
    var lastDc: seq<int>
    var dcContext: seq<nat>
    var restartsToGo: nat
    var nextRestartNum: nat

    ghost const dest: seq<byte>
    ghost var segs: seq<seq<Decision>>   // the segments that are closed
    ghost var datas: seq<seq<byte>>

    function P(): Pred
      reads this`lastDc, this`dcContext
    {
      Pred(lastDc, dcContext)
    }

    ghost predicate Valid()
      reads this`lastDc, this`dcContext, this`nextRestartNum, this`segs, this`datas, e, e.stats
    {
      && e.Valid() && e.stats.Length == BINS && e.entry == State(FULL, StartStats())
      && GoodScan(scan) && GoodOrder(order) && GoodPred(scan, P())
      && AllCoded(e.table, segs, datas) && e.start == dest + Closed(datas, 0) && nextRestartNum == |segs| % 8
    }

    // start_pass
    constructor (e: Encoder, scan: Scan, order: seq<nat>)
      requires e.Valid() && e.stats.Length == BINS && GoodScan(scan) && GoodOrder(order)
      requires e.entry == State(FULL, StartStats())
      ensures Valid() && this.e == e && this.scan == scan && this.order == order
      ensures P() == StartPred(scan) && restartsToGo == scan.interval && segs == [] && dest == e.start
    {
      this.e, this.scan, this.order := e, scan, order;
      lastDc, dcContext := seq(|scan.comps|, _ => 0), seq(|scan.comps|, _ => 0);
      restartsToGo, nextRestartNum := scan.interval, 0;
      dest, segs, datas := e.start, [], [];
    }

    // emit_restart. All statistics start again; those of other tables than the scan's
    // have not been used.
    method EmitRestart()
      requires Valid()
      modifies this, e, e.stats
      ensures Valid() && e.history == [] && segs == old(segs) + [old(e.history)] && P() == StartPred(scan)
    {
      hide Coded, AllCoded, Contains, IntervalOf, Run, Encoder.Represents, Encoder.OutputOk, GoodStats, Closed, Stuff;
      ghost var was, from := e.history, e.start;
      CodedNow();
      e.EmitRestart(nextRestartNum, StartStats());
      OneMoreSegment(e.table, segs, datas, was, e.closed, dest, from);
      segs, datas := segs + [was], datas + [e.closed];
      lastDc, dcContext := seq(|scan.comps|, _ => 0), seq(|scan.comps|, _ => 0);
      nextRestartNum := (nextRestartNum + 1) % 8;
    }

    lemma CodedNow()
      requires Valid()
      ensures GoodDecisions(e.history, BINS) && e.Now().iv == IntervalOf(e.table, e.history)
    {
    }

    // encode_mcu
    method EncodeMcu(mcu: seq<seq<int>>, ghost next: seq<Decision>)
      requires Valid() && Blocks(mcu) && |mcu| == |scan.membership|
      requires Codable(scan, PredHere(scan, restartsToGo, P()), Zigzags(order, mcu))
      modifies this, e, e.stats
      ensures Valid() && restartsToGo == ToGoNext(scan.interval, old(restartsToGo))
      ensures var p := PredHere(scan, old(restartsToGo), old(P()));
              var ds := McuDecisions(scan, p, Zigzags(order, mcu), next);
              && P() == FinalPred(scan, p, Zigzags(order, mcu))
              && if IsDue(scan.interval, old(restartsToGo)) then
                   segs == old(segs) + [old(e.history)] && e.history + next == ds
                 else
                   segs == old(segs) && e.history + next == old(e.history) + ds
      ensures var was := if IsDue(scan.interval, old(restartsToGo)) then [] else old(e.history);
              Grown(was, e.history, ScanArea(scan.comps))
    {
      hide Codable, McuDecisions, FinalPred, Zigzags, Valid, Grown, GoodOrder;
      if scan.interval != 0 {
        if restartsToGo == 0 {
          EmitRestart();
          restartsToGo := scan.interval;
        }
        restartsToGo := restartsToGo - 1;
      }
      EncodeBlocks(mcu, next);
    }

    // The blocks of an MCU.
    method EncodeBlocks(mcu: seq<seq<int>>, ghost next: seq<Decision>)
      requires Valid() && Blocks(mcu) && |mcu| == |scan.membership|
      requires Codable(scan, P(), Zigzags(order, mcu))
      modifies this`lastDc, this`dcContext, e, e.stats
      ensures Valid() && e.SameSegment()
      ensures e.history + next == old(e.history) + McuDecisions(scan, old(P()), Zigzags(order, mcu), next)
      ensures P() == FinalPred(scan, old(P()), Zigzags(order, mcu))
      ensures Grown(old(e.history), e.history, ScanArea(scan.comps))
    {
      hide AllCoded, Closed, Grown, Leads, ScanArea, Encoder.Valid, Codable, Zigzags, McuDecisions, FinalPred,
        DcDecisions, AcDecisions, GoodOrder;
      assert mcu[0..] == mcu;
      for blkn := 0 to |mcu|
        invariant Valid() && e.SameSegment() && Codable(scan, P(), Zigzags(order, mcu[blkn..]))
        invariant e.history + McuDecisions(scan, P(), Zigzags(order, mcu[blkn..]), next)
                  == old(e.history) + McuDecisions(scan, old(P()), Zigzags(order, mcu), next)
        invariant FinalPred(scan, P(), Zigzags(order, mcu[blkn..])) == FinalPred(scan, old(P()), Zigzags(order, mcu))
      {
        assert mcu[blkn..][0] == mcu[blkn] && mcu[blkn..][1..] == mcu[blkn + 1..];
        McuStep(scan, P(), order, mcu[blkn..], next);
        var z := Zigzag(order, mcu[blkn]);
        EncodeBlock(scan.membership[blkn], z,
          McuDecisions(scan, NextPred(scan, P(), scan.membership[blkn], z[0]), Zigzags(order, mcu[blkn + 1..]), next));
      }
      McuEnd(scan, P(), order, mcu[|mcu|..], next);
      McuInArea(scan, old(P()), Zigzags(order, mcu), next);
      GrownByCoding(old(e.history), e.history, McuDecisions(scan, old(P()), Zigzags(order, mcu), next), next,
                    ScanArea(scan.comps));
    }

    method EncodeBlock(ci: nat, z: seq<int>, ghost next: seq<Decision>)
      requires Valid() && ci < |scan.comps| && GoodBlock(z, scan.limSe) && InLimit(z[0] - lastDc[ci])
      modifies this`lastDc, this`dcContext, e, e.stats
      ensures Valid() && e.SameSegment()
      ensures e.history + next == old(e.history)
        + DcDecisions(scan.comps[ci], old(dcContext[ci]), z[0] - old(lastDc[ci]),
            AcDecisions(scan.comps[ci], z, scan.limSe, next))
      ensures P() == NextPred(scan, old(P()), ci, z[0])
      ensures Grown(old(e.history), e.history, CompArea(scan.comps[ci]))
    {
      hide Encoder.Valid, AllCoded, Closed, Grown;
      var c := scan.comps[ci];
      ghost var was := e.history;
      var ctx := PutDc(e, c, dcContext[ci], z[0] - lastDc[ci], AcDecisions(c, z, scan.limSe, next));
      GrownIn(was, e.history, DcArea(c.dcTbl), CompArea(c));
      lastDc, dcContext := lastDc[ci := z[0]], dcContext[ci := ctx];
      ghost var between := e.history;
      PutAc(e, c, z, scan.limSe, next);
      GrownIn(between, e.history, AcArea(c.acTbl), CompArea(c));
      GrownMore(was, between, e.history, CompArea(c));
    }
  }
}
