// Which statistics bins the decisions of a block use. The statistics of each table are
// separate areas of 64 and 256 bytes; nothing that is coded goes beyond those of the
// component's own tables.
module ArithBins {
  import opened Coefs
  import opened Bytes
  import opened ArithInterval
  import opened ArithBinarise

  predicate Within(st: nat, from: nat, size: nat) { from <= st < from + size }

  // dc_stats[tbl], of DC_STAT_BINS bytes
  function DcArea(tbl: nat): (bins: set<nat>)
    requires tbl < NUM_ARITH_TBLS
    ensures forall st :: st in bins <==> DcBin(tbl, 0) <= st < DcBin(tbl, 0) + 64
  {
    set st: nat | st < BINS && Within(st, DcBin(tbl, 0), 64)
  }

  // ac_stats[tbl], of AC_STAT_BINS bytes, and fixed_bin
  function AcArea(tbl: nat): (bins: set<nat>)
    requires tbl < NUM_ARITH_TBLS
    ensures forall st :: st in bins <==> st == FIXED_BIN || AcBin(tbl, 0) <= st < AcBin(tbl, 0) + 256
  {
    (set st: nat | st < BINS && Within(st, AcBin(tbl, 0), 256)) + {FIXED_BIN}
  }

  // Different tables have different bins.
  lemma AreasApart(a: nat, b: nat)
    requires a < NUM_ARITH_TBLS && b < NUM_ARITH_TBLS
    ensures DcArea(a) !! AcArea(b)
    ensures a != b ==> DcArea(a) !! DcArea(b) && AcArea(a) * AcArea(b) == {FIXED_BIN}
  {
  }

  // ---- Decisions and what follows them ---------------------------------------------------------------------------

  // Some decisions in these bins, and then next.
  predicate Leads(ds: seq<Decision>, next: seq<Decision>, bins: set<nat>) {
    && |next| <= |ds| && ds[|ds| - |next|..] == next
    && forall i :: 0 <= i < |ds| - |next| ==> ds[i].bin in bins
  }

  predicate AllIn(ds: seq<Decision>, bins: set<nat>) {
    forall i :: 0 <= i < |ds| ==> ds[i].bin in bins
  }

  // The history has grown by decisions in these bins.
  predicate Grown(was: seq<Decision>, now: seq<Decision>, bins: set<nat>) {
    |was| <= |now| && now[..|was|] == was && forall i :: |was| <= i < |now| ==> now[i].bin in bins
  }

  lemma LeadsNothing(next: seq<Decision>, bins: set<nat>)
    ensures Leads(next, next, bins)
  {
  }

  lemma LeadsOne(st: nat, bit: int, ds: seq<Decision>, next: seq<Decision>, bins: set<nat>)
    requires st in bins && Leads(ds, next, bins)
    ensures Leads([Decision(st, bit)] + ds, next, bins)
  {
  }

  lemma LeadsOn(a: seq<Decision>, b: seq<Decision>, c: seq<Decision>, bins: set<nat>)
    requires Leads(a, b, bins) && Leads(b, c, bins)
    ensures Leads(a, c, bins)
  {
    var n := |a| - |b|;
    forall i | 0 <= i < |a| - |c| ensures a[i].bin in bins {
      if i >= n { assert a[i] == a[n..][i - n] == b[i - n]; }
    }
    assert a[|a| - |c|..] == a[n..][|b| - |c|..];
  }

  lemma LeadsIn(ds: seq<Decision>, next: seq<Decision>, bins: set<nat>, more: set<nat>)
    requires Leads(ds, next, bins) && bins <= more
    ensures Leads(ds, next, more)
  {
  }

  lemma GrownNot(h: seq<Decision>, bins: set<nat>)
    ensures Grown(h, h, bins)
  {
  }

  lemma GrownOne(was: seq<Decision>, now: seq<Decision>, d: Decision, bins: set<nat>)
    requires Grown(was, now, bins) && d.bin in bins
    ensures Grown(was, now + [d], bins)
  {
  }

  lemma GrownMore(a: seq<Decision>, b: seq<Decision>, c: seq<Decision>, bins: set<nat>)
    requires Grown(a, b, bins) && Grown(b, c, bins)
    ensures Grown(a, c, bins)
  {
    assert c[..|a|] == c[..|b|][..|a|];
    forall i | |a| <= i < |c| ensures c[i].bin in bins {
      if i < |b| { assert c[i] == c[..|b|][i] == b[i]; }
    }
  }

  lemma GrownIn(a: seq<Decision>, b: seq<Decision>, bins: set<nat>, more: set<nat>)
    requires Grown(a, b, bins) && bins <= more
    ensures Grown(a, b, more)
  {
  }

  // A coder that goes from ds to next has grown its history by what leads there.
  lemma GrownByCoding(was: seq<Decision>, now: seq<Decision>, ds: seq<Decision>, next: seq<Decision>, bins: set<nat>)
    requires now + next == was + ds && Leads(ds, next, bins)
    ensures Grown(was, now, bins)
  {
    assert |now| == |was| + |ds| - |next|;
    assert now == (now + next)[..|now|] == (was + ds)[..|now|];
    forall i | |was| <= i < |now| ensures now[i].bin in bins { assert now[i] == (was + ds)[i] == ds[i - |was|]; }
  }

  // ---- Magnitudes ------------------------------------------------------------------------------------------------

  lemma {:induction false} CategoryBins(st: nat, n: nat, next: seq<Decision>, bins: set<nat>)
    requires forall b: nat :: st <= b <= st + n ==> b in bins
    ensures Leads(Category(st, n, next), next, bins)
    decreases n
  {
    assert st in bins;
    LeadsNothing(next, bins);
    if n == 0 {
      LeadsOne(st, 0, next, next, bins);
    } else {
      CategoryBins(st + 1, n - 1, next, bins);
      LeadsOne(st, 1, Category(st + 1, n - 1, next), next, bins);
    }
  }

  lemma {:induction false} PatternBins(st: nat, v: nat, n: nat, next: seq<Decision>, bins: set<nat>)
    requires v < Pow2(n) && st in bins
    ensures Leads(Pattern(st, v, n, next), next, bins)
    decreases n
  {
    hide Leads;
    LeadsNothing(next, bins);
    if n > 0 {
      var one := v >= Pow2(n - 1);
      var low := if one then v - Pow2(n - 1) else v;
      PatternBins(st, low, n - 1, next, bins);
      LeadsOne(st, if one then 1 else 0, Pattern(st, low, n - 1, next), next, bins);
    }
  }

  // A category and its pattern, 14 bins further on.
  lemma MagnitudeBins(x: nat, n: nat, st: nat, v: nat, m: nat, next: seq<Decision>, bins: set<nat>)
    requires v < Pow2(m) && st in bins && forall b: nat :: x <= b <= x + n ==> b in bins
    ensures Leads(Category(x, n, Pattern(st, v, m, next)), next, bins)
  {
    hide Leads, Category, Pattern;
    PatternBins(st, v, m, next, bins);
    CategoryBins(x, n, Pattern(st, v, m, next), bins);
    LeadsOn(Category(x, n, Pattern(st, v, m, next)), Pattern(st, v, m, next), next, bins);
  }

  lemma DcMagnitudeBins(tbl: nat, sp: nat, v: nat, next: seq<Decision>)
    requires tbl < NUM_ARITH_TBLS && v < MAG_LIMIT && sp in DcArea(tbl)
    ensures Leads(DcMagnitude(tbl, sp, v, next), next, DcArea(tbl))
  {
    hide Leads, Category, Pattern, Log2;
    var bins := DcArea(tbl);
    LeadsNothing(next, bins);
    if v == 0 {
      LeadsOne(sp, 0, next, next, bins);
    } else {
      Log2Limit(v);
      var n, x := Log2(v), DcBin(tbl, 20);
      MagnitudeBins(x, n, x + n + 14, v - Pow2(n), n, next, bins);
      LeadsOne(sp, 1, Category(x, n, Pattern(x + n + 14, v - Pow2(n), n, next)), next, bins);
    }
  }

  lemma AcMagnitudeBins(tbl: nat, k: nat, kx: nat, s: nat, v: nat, next: seq<Decision>)
    requires tbl < NUM_ARITH_TBLS && v < MAG_LIMIT && s in AcArea(tbl)
    ensures Leads(AcMagnitude(tbl, k, kx, s, v, next), next, AcArea(tbl))
  {
    hide Leads, Category, Pattern, Log2;
    var bins := AcArea(tbl);
    LeadsNothing(next, bins);
    if v < 2 {
      LeadsOne(s, 0, next, next, bins);
      if v == 1 { LeadsOne(s, 1, [Decision(s, 0)] + next, next, bins); }
    } else {
      Log2Limit(v);
      var n, x := Log2(v), AcCategoryBin(tbl, k, kx);
      var cat := Category(x, n - 1, Pattern(x + n + 13, v - Pow2(n), n, next));
      MagnitudeBins(x, n - 1, x + n + 13, v - Pow2(n), n, next, bins);
      LeadsOne(s, 1, cat, next, bins);
      LeadsOne(s, 1, [Decision(s, 1)] + cat, next, bins);
    }
  }

  // ---- Blocks ----------------------------------------------------------------------------------------------------

  // A DC difference uses the 64 bins of its own table only.
  lemma DcInArea(c: Comp, ctx: nat, d: int, next: seq<Decision>)
    requires GoodComp(c) && GoodCtx(ctx) && InLimit(d)
    ensures Leads(DcDecisions(c, ctx, d, next), next, DcArea(c.dcTbl))
  {
    hide Leads, DcMagnitude;
    var bins, s0 := DcArea(c.dcTbl), DcBin(c.dcTbl, ctx);
    if d == 0 {
      LeadsNothing(next, bins);
      LeadsOne(s0, 0, next, next, bins);
    } else {
      var mag := DcMagnitude(c.dcTbl, s0 + 2 + Sign(d), Abs(d) - 1, next);
      DcMagnitudeBins(c.dcTbl, s0 + 2 + Sign(d), Abs(d) - 1, next);
      LeadsOne(s0 + 1, Sign(d), mag, next, bins);
      LeadsOne(s0, 1, [Decision(s0 + 1, Sign(d))] + mag, next, bins);
    }
  }

  lemma DcBinInArea(c: Comp, ctx: nat)
    requires GoodComp(c) && GoodCtx(ctx)
    ensures var st, bins := DcBin(c.dcTbl, ctx), DcArea(c.dcTbl);
            st in bins && st + 1 in bins && st + 2 in bins && st + 3 in bins && st + 3 < BINS
  {
  }

  lemma EobBinInArea(c: Comp, k: nat)
    requires GoodComp(c) && 1 <= k < 64
    ensures var st, bins := EobBin(c, k), AcArea(c.acTbl); st in bins && st + 1 in bins && st + 2 in bins
  {
    assert 3 * (k - 1) + 2 < 256 && AcBin(c.acTbl, 3 * (k - 1)) == AcBin(c.acTbl, 0) + 3 * (k - 1);
  }

  lemma NonzeroInArea(c: Comp, v: int, k: nat, next: seq<Decision>)
    requires GoodComp(c) && 1 <= k < 64 && InLimit(v) && v != 0
    ensures Leads(NonzeroAt(c, v, k, next), next, AcArea(c.acTbl))
  {
    hide Leads, AcMagnitude, EobBin;
    var bins, st := AcArea(c.acTbl), EobBin(c, k);
    EobBinInArea(c, k);
    var mag := AcMagnitude(c.acTbl, k, c.acK, st + 2, Abs(v) - 1, next);
    AcMagnitudeBins(c.acTbl, k, c.acK, st + 2, Abs(v) - 1, next);
    LeadsOne(FIXED_BIN, Sign(v), mag, next, bins);
    LeadsOne(st + 1, 1, [Decision(FIXED_BIN, Sign(v))] + mag, next, bins);
  }

  lemma {:induction false} AcFromInArea(c: Comp, z: seq<int>, limSe: nat, k: nat, ke: nat, next: seq<Decision>)
    requires GoodComp(c) && GoodBlock(z, limSe) && 1 <= k <= limSe + 1 && ke <= limSe && (ke > 0 ==> z[ke] != 0)
    ensures Leads(AcFrom(c, z, limSe, k, ke, next), next, AcArea(c.acTbl))
    decreases limSe + 1 - k, 1
  {
    hide Leads, RunFrom, EobBin;
    var bins := AcArea(c.acTbl);
    LeadsNothing(next, bins);
    if k <= limSe {
      EobBinInArea(c, k);
      if k <= ke {
        RunInArea(c, z, limSe, k, ke, next);
        LeadsOne(EobBin(c, k), 0, RunFrom(c, z, limSe, k, ke, next), next, bins);
      } else {
        LeadsOne(EobBin(c, k), 1, next, next, bins);
      }
    }
  }

  lemma {:induction false} RunInArea(c: Comp, z: seq<int>, limSe: nat, k: nat, ke: nat, next: seq<Decision>)
    requires GoodComp(c) && GoodBlock(z, limSe) && 1 <= k <= ke <= limSe && z[ke] != 0
    ensures Leads(RunFrom(c, z, limSe, k, ke, next), next, AcArea(c.acTbl))
    decreases limSe + 1 - k, 0
  {
    hide Leads, AcFrom, NonzeroAt, EobBin;
    var bins := AcArea(c.acTbl);
    if z[k] == 0 {
      EobBinInArea(c, k);
      RunInArea(c, z, limSe, k + 1, ke, next);
      LeadsOne(EobBin(c, k) + 1, 0, RunFrom(c, z, limSe, k + 1, ke, next), next, bins);
    } else {
      var more := AcFrom(c, z, limSe, k + 1, ke, next);
      NonzeroInArea(c, z[k], k, more);
      AcFromInArea(c, z, limSe, k + 1, ke, next);
      LeadsOn(NonzeroAt(c, z[k], k, more), more, next, bins);
    }
  }

  // The AC coefficients use the 256 bins of their own table and the fixed bin only.
  lemma AcInArea(c: Comp, z: seq<int>, limSe: nat, next: seq<Decision>)
    requires GoodComp(c) && GoodBlock(z, limSe)
    ensures Leads(AcDecisions(c, z, limSe, next), next, AcArea(c.acTbl))
  {
    AcFromInArea(c, z, limSe, 1, EobIndex(z, limSe), next);
  }

  // ---- Scans -----------------------------------------------------------------------------------------------------

  function CompArea(c: Comp): (bins: set<nat>)
    requires GoodComp(c)
  {
    DcArea(c.dcTbl) + AcArea(c.acTbl)
  }

  // The areas of all components.
  function ScanArea(comps: seq<Comp>): (bins: set<nat>)
    requires forall i :: 0 <= i < |comps| ==> GoodComp(comps[i])
    ensures forall i :: 0 <= i < |comps| ==> CompArea(comps[i]) <= bins
    ensures forall st <- bins :: exists i :: 0 <= i < |comps| && st in CompArea(comps[i])
  {
    set i, st | 0 <= i < |comps| && st in CompArea(comps[i]) :: st
  }

  lemma {:induction false} McuInArea(s: Scan, p: Pred, mcu: seq<seq<int>>, next: seq<Decision>)
    requires GoodScan(s) && GoodPred(s, p) && |mcu| <= |s.membership| && Codable(s, p, mcu)
    ensures Leads(McuDecisions(s, p, mcu, next), next, ScanArea(s.comps))
    decreases |mcu|
  {
    hide Leads, DcDecisions, AcDecisions, ScanArea, NextPred;
    var bins := ScanArea(s.comps);
    if mcu == [] {
      LeadsNothing(next, bins);
    } else {
      var z, ci := mcu[0], s.membership[|s.membership| - |mcu|];
      var c, p' := s.comps[ci], NextPred(s, p, ci, z[0]);
      var more := McuDecisions(s, p', mcu[1..], next);
      var ac := AcDecisions(c, z, s.limSe, more);
      var dc := DcDecisions(c, p.ctx[ci], z[0] - p.last[ci], ac);
      assert CompArea(c) <= bins;
      DcInArea(c, p.ctx[ci], z[0] - p.last[ci], ac);
      LeadsIn(dc, ac, DcArea(c.dcTbl), bins);
      AcInArea(c, z, s.limSe, more);
      LeadsIn(ac, more, AcArea(c.acTbl), bins);
      McuInArea(s, p', mcu[1..], next);
      LeadsOn(ac, more, next, bins);
      LeadsOn(dc, ac, next, bins);
    }
  }
}
