// The binary decisions that stand for a block of coefficients (T.81 sections
// F.1.4.1 and F.1.4.2), and why they can be read back without separators.
module ArithBinarise {
  import opened Coefs
  import opened Bytes
  import opened ArithInterval

  // ---- Addresses of the statistics bins ------------------------------------------

  // 16 tables of 64 DC bins, 16 of 256 AC bins, and the bin of fixed probability.
  const NUM_ARITH_TBLS: nat := 16
  const BINS: nat := 5121
  const FIXED_BIN: nat := 5120

  function DcBin(tbl: nat, k: nat): (st: nat)
    requires tbl < NUM_ARITH_TBLS && k < 64
    ensures st < BINS
  {
    tbl * 64 + k
  }

  function AcBin(tbl: nat, k: nat): (st: nat)
    requires tbl < NUM_ARITH_TBLS && k < 256
    ensures st < BINS
  {
    1024 + tbl * 256 + k
  }

  // ---- Magnitudes -------------------------------------------------------------------

  // The number of times v can be halved before it is 1.
  function Log2(v: nat): (n: nat)
    requires v > 0
    ensures Pow2(n) <= v < 2 * Pow2(n)
  {
    if v == 1 then 0 else 1 + Log2(v / 2)
  }

  lemma Log2Half(v: nat)
    requires v > 1
    ensures Log2(v / 2) == Log2(v) - 1
  {
  }

  lemma {:induction false} Log2Bound(v: nat, n: nat)
    requires 0 < v < Pow2(n)
    ensures Log2(v) < n
  {
    if Log2(v) >= n { Pow2Mono(n, Log2(v)); }
  }

  // Every string below is given with what follows it, so that a coder can walk
  // along it one decision at a time.

  // Magnitude category n: n ones and a zero, over successive bins.
  function Category(st: nat, n: nat, next: seq<Decision>): seq<Decision>
    decreases n
  {
    if n == 0 then [Decision(st, 0)] + next else [Decision(st, 1)] + Category(st + 1, n - 1, next)
  }

  // The n low bits of v, top bit first, all in one bin.
  function Pattern(st: nat, v: nat, n: nat, next: seq<Decision>): seq<Decision>
    requires v < Pow2(n)
    decreases n
  {
    if n == 0 then next
    else if v >= Pow2(n - 1) then [Decision(st, 1)] + Pattern(st, v - Pow2(n - 1), n - 1, next)
    else [Decision(st, 0)] + Pattern(st, v, n - 1, next)
  }

  // The code is defined for magnitudes up to 2^15 (v is the magnitude less one).
  const MAG_LIMIT: nat := 0x8000

  lemma Log2Limit(v: nat)
    requires 0 < v < MAG_LIMIT
    ensures Log2(v) <= 14
  {
    Pow2Table();
    Log2Bound(v, 15);
  }

  function DcMagnitude(tbl: nat, sp: nat, v: nat, next: seq<Decision>): seq<Decision>
    requires tbl < NUM_ARITH_TBLS && v < MAG_LIMIT
  {
    if v == 0 then [Decision(sp, 0)] + next
    else
      Log2Limit(v);
      var n, x := Log2(v), DcBin(tbl, 20);
      [Decision(sp, 1)] + Category(x, n, Pattern(x + n + 14, v - Pow2(n), n, next))
  }

  function AcCategoryBin(tbl: nat, k: nat, kx: nat): (st: nat)
    requires tbl < NUM_ARITH_TBLS
  {
    AcBin(tbl, if k <= kx then 189 else 217)
  }

  function AcMagnitude(tbl: nat, k: nat, kx: nat, s: nat, v: nat, next: seq<Decision>): seq<Decision>
    requires tbl < NUM_ARITH_TBLS && v < MAG_LIMIT
  {
    if v == 0 then [Decision(s, 0)] + next
    else if v == 1 then [Decision(s, 1)] + ([Decision(s, 0)] + next)
    else
      Log2Limit(v);
      var n, x := Log2(v), AcCategoryBin(tbl, k, kx);
      [Decision(s, 1)] + ([Decision(s, 1)] + Category(x, n - 1, Pattern(x + n + 13, v - Pow2(n), n, next)))
  }

  // ---- Coefficients ---------------------------------------------------------------

  datatype Comp = Comp(dcTbl: nat, acTbl: nat, dcL: nat, dcU: nat, acK: nat)

  predicate GoodComp(c: Comp) {
    c.dcTbl < NUM_ARITH_TBLS && c.acTbl < NUM_ARITH_TBLS
  }

  predicate GoodCtx(ctx: nat) {
    ctx <= 16
  }

  predicate InLimit(d: int) {
    0 - MAG_LIMIT as int <= d <= MAG_LIMIT
  }

  function Sign(d: int): int { if d < 0 then 1 else 0 }

  // Figure F.4: the decisions of a DC difference in conditioning category ctx.
  function DcDecisions(c: Comp, ctx: nat, d: int, next: seq<Decision>): seq<Decision>
    requires GoodComp(c) && GoodCtx(ctx) && InLimit(d)
  {
    var s0 := DcBin(c.dcTbl, ctx);
    if d == 0 then [Decision(s0, 0)] + next
    else [Decision(s0, 1)] + ([Decision(s0 + 1, Sign(d))] + DcMagnitude(c.dcTbl, s0 + 2 + Sign(d), Abs(d) - 1, next))
  }

  // Section F.1.4.4.1.2: the category the next difference is coded in.
  function NextCtx(c: Comp, d: int): (ctx: nat)
    ensures GoodCtx(ctx)
  {
    if d == 0 then 0
    else
      var v := Abs(d) - 1;
      Conditioning(c, if v == 0 then 0 else Pow2(Log2(v)), Sign(d))
  }

  function Conditioning(c: Comp, m: nat, sign: int): (ctx: nat)
    requires 0 <= sign <= 1
    ensures GoodCtx(ctx)
  {
    if m < Pow2(c.dcL) / 2 then 0
    else if m > Pow2(c.dcU) / 2 then 12 + sign * 4
    else 4 + sign * 4
  }

  // The last nonzero position of a block in zigzag order, 0 if there is none above 0.
  function EobIndex(z: seq<int>, ke: nat): (k: nat)
    requires ke < |z|
    ensures k <= ke && (k > 0 ==> z[k] != 0)
    ensures forall i :: k < i <= ke ==> z[i] == 0
  {
    if ke == 0 || z[ke] != 0 then ke else EobIndex(z, ke - 1)
  }

  predicate GoodBlock(z: seq<int>, limSe: nat) {
    limSe < 64 && |z| > limSe && forall i :: 0 <= i <= limSe ==> IsJcoef(z[i])
  }

  function EobBin(c: Comp, k: nat): (st: nat)
    requires GoodComp(c) && 1 <= k < 64
    ensures st + 2 < BINS
  {
    assert AcBin(c.acTbl, 3 * (k - 1) + 2) == AcBin(c.acTbl, 3 * (k - 1)) + 2;
    AcBin(c.acTbl, 3 * (k - 1))
  }

  // Figure F.5 from position k on: at an EOB decision, ...
  function AcFrom(c: Comp, z: seq<int>, limSe: nat, k: nat, ke: nat, next: seq<Decision>): seq<Decision>
    requires GoodComp(c) && GoodBlock(z, limSe) && 1 <= k <= limSe + 1 && ke <= limSe
    requires ke > 0 ==> z[ke] != 0
    decreases limSe + 1 - k, 1
  {
    if k <= ke then [Decision(EobBin(c, k), 0)] + RunFrom(c, z, limSe, k, ke, next)
    else if k <= limSe then [Decision(EobBin(c, k), 1)] + next
    else next
  }

  // ... and inside a run of zeros that ends at or before ke.
  function RunFrom(c: Comp, z: seq<int>, limSe: nat, k: nat, ke: nat, next: seq<Decision>): seq<Decision>
    requires GoodComp(c) && GoodBlock(z, limSe) && 1 <= k <= ke <= limSe && z[ke] != 0
    decreases limSe + 1 - k, 0
  {
    if z[k] == 0 then [Decision(EobBin(c, k) + 1, 0)] + RunFrom(c, z, limSe, k + 1, ke, next)
    else NonzeroAt(c, z[k], k, AcFrom(c, z, limSe, k + 1, ke, next))
  }

  function NonzeroAt(c: Comp, v: int, k: nat, next: seq<Decision>): seq<Decision>
    requires GoodComp(c) && 1 <= k < 64 && InLimit(v) && v != 0
  {
    var st := EobBin(c, k);
    [Decision(st + 1, 1)] + ([Decision(FIXED_BIN, Sign(v))]
    + AcMagnitude(c.acTbl, k, c.acK, st + 2, Abs(v) - 1, next))
  }

  function AcDecisions(c: Comp, z: seq<int>, limSe: nat, next: seq<Decision>): seq<Decision>
    requires GoodComp(c) && GoodBlock(z, limSe)
  {
    AcFrom(c, z, limSe, 1, EobIndex(z, limSe), next)
  }

  // ---- Scans ----------------------------------------------------------------------

  // The component of each block of an MCU, what each component uses, the highest
  // coefficient position coded, and how many MCUs there are between two restart markers,
  // or 0 for no markers.
  datatype Scan = Scan(comps: seq<Comp>, membership: seq<nat>, limSe: nat, interval: nat)

  // last_dc_val and dc_context.
  datatype Pred = Pred(last: seq<int>, ctx: seq<nat>)

  predicate GoodScan(s: Scan) {
    && s.limSe < 64
    && (forall i :: 0 <= i < |s.comps| ==> GoodComp(s.comps[i]))
    && (forall i :: 0 <= i < |s.membership| ==> s.membership[i] < |s.comps|)
  }

  predicate GoodPred(s: Scan, p: Pred) {
    |p.last| == |p.ctx| == |s.comps| && forall i :: 0 <= i < |p.ctx| ==> GoodCtx(p.ctx[i])
  }

  // start_pass clears the bins; jinit_arith_encoder set up the fixed one.
  function StartStats(): (stats: seq<int>)
    ensures |stats| == BINS && GoodStats(stats)
  {
    seq(BINS, i => if i == FIXED_BIN then 113 else 0)
  }

  function StartPred(s: Scan): (p: Pred)
    requires GoodScan(s)
    ensures GoodPred(s, p)
  {
    Pred(seq(|s.comps|, _ => 0), seq(|s.comps|, _ => 0))
  }

  function NextPred(s: Scan, p: Pred, ci: nat, dc: int): (r: Pred)
    requires GoodScan(s) && GoodPred(s, p) && ci < |s.comps|
    ensures GoodPred(s, r)
  {
    Pred(p.last[ci := dc], p.ctx[ci := NextCtx(s.comps[ci], dc - p.last[ci])])
  }

  // Every coefficient and difference of the MCU is within the code's limit.
  predicate Codable(s: Scan, p: Pred, mcu: seq<seq<int>>)
    requires GoodScan(s) && GoodPred(s, p) && |mcu| <= |s.membership|
    decreases |mcu|
  {
    mcu == [] || (
      var z, ci := mcu[0], s.membership[|s.membership| - |mcu|];
      GoodBlock(z, s.limSe) && InLimit(z[0] - p.last[ci]) && Codable(s, NextPred(s, p, ci, z[0]), mcu[1..]))
  }

  // The decisions of the last |mcu| blocks of an MCU, given in zigzag order.
  function McuDecisions(s: Scan, p: Pred, mcu: seq<seq<int>>, next: seq<Decision>): seq<Decision>
    requires GoodScan(s) && GoodPred(s, p) && |mcu| <= |s.membership| && Codable(s, p, mcu)
    decreases |mcu|
  {
    if mcu == [] then next
    else
      var z, ci := mcu[0], s.membership[|s.membership| - |mcu|];
      var c := s.comps[ci];
      DcDecisions(c, p.ctx[ci], z[0] - p.last[ci],
        AcDecisions(c, z, s.limSe,
          McuDecisions(s, NextPred(s, p, ci, z[0]), mcu[1..], next)))
  }

  function FinalPred(s: Scan, p: Pred, mcu: seq<seq<int>>): (r: Pred)
    requires GoodScan(s) && GoodPred(s, p) && |mcu| <= |s.membership| && Codable(s, p, mcu)
    ensures GoodPred(s, r)
    decreases |mcu|
  {
    if mcu == [] then p
    else FinalPred(s, NextPred(s, p, s.membership[|s.membership| - |mcu|], mcu[0][0]), mcu[1..])
  }
}
