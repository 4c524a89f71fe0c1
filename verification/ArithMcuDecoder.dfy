// jdarith.c, decode_mcu: rebuilding a block from decisions. Each method says what
// it does on every stream, and what it returns when the stream goes on with the
// decisions of some value ("want"): that value.
module ArithMcuDecoder {
  import opened Coefs
  import opened Bytes
  import opened ArithInterval
  import opened ArithBinarise
  import opened ArithBins
  import opened ArithSegments
  import opened EntropySegment
  import opened MarkerSearch
  import opened Intervals
  import opened D = ArithDecoder
  import opened ZigzagOrder
  import opened ArithMcuEncoder

  // Done; the source ran out before any marker; or "entropy->ct = -1".
  datatype Status = Done | OutOfData | BadCode

  // One call of arith_decode, for a bin of the area that the caller works in.
  method Ask(d: Decoder, st: nat, ghost x: Decision, ghost next: seq<Decision>, ghost was: seq<Decision>,
      ghost bins: set<nat>)
    returns (ok: bool, bit: int)
    requires d.Valid() && st < d.stats.Length && st in bins && Grown(was, d.history, bins)
    modifies d, d.stats
    ensures ok ==> d.Valid() && 0 <= bit <= 1
    ensures Grown(was, d.history, bins) && d.SameSegment()
    ensures old(d.Expects([x] + next)) && x.bin == st ==> ok && bit == x.bit && d.Expects(next)
  {
    hide Decoder.Valid, Decoder.Expects, Grown;
    ghost var before := d.history;
    ok, bit := d.ArithDecodeNext(st, x, next);
    if ok { GrownOne(was, before, Decision(st, bit), bins); }
  }

  // "v = m; st += 14; while (m >>= 1) if (arith_decode(cinfo, st)) v |= m"
  method GetPattern(d: Decoder, st: nat, m0: nat, ghost n: nat, ghost want: nat, ghost next: seq<Decision>,
      ghost was: seq<Decision>, ghost bins: set<nat>)
    returns (ok: bool, v: nat)
    requires d.Valid() && d.stats.Length == BINS && st < BINS && st in bins && Grown(was, d.history, bins)
    requires m0 == Pow2(n) && want < Pow2(n)
    modifies d, d.stats
    ensures ok ==> d.Valid() && m0 <= v < 2 * m0
    ensures Grown(was, d.history, bins) && d.SameSegment()
    ensures old(d.Expects(Pattern(st, want, n, next))) ==> ok && v == m0 + want && d.Expects(next)
  {
    hide Grown, Decoder.Valid, Decoder.Expects;
    ghost var exp := d.Expects(Pattern(st, want, n, next));
    v := m0;
    var m := m0 / 2;
    ghost var j: nat, low: nat := n, want;
    ok := true;
    while m > 0
      invariant d.Valid() && d.SameSegment() && m == Pow2(j) / 2 && low < Pow2(j) && Grown(was, d.history, bins)
      invariant m0 <= v && v + Pow2(j) <= 2 * m0
      invariant exp ==> v + low == m0 + want && d.Expects(Pattern(st, low, j, next))
      decreases m
    {
      ghost var low' := if low >= m then low - m else low;
      var bit;
      ok, bit := Ask(d, st, Decision(st, if low >= m then 1 else 0), Pattern(st, low', j - 1, next), was, bins);
      if !ok { return; }
      if bit == 1 { v := v + m; }
      low, j := low', j - 1;
      m := m / 2;
    }
  }

  // "while (arith_decode(cinfo, st)) { if ((m <<= 1) == 0x8000) ...; st += 1; }"
  method GetCategory(d: Decoder, st0: nat, i0: nat, ghost want: nat, ghost next: seq<Decision>,
      ghost was: seq<Decision>, ghost bins: set<nat>)
    returns (status: Status, st: nat, m: nat, ghost n: nat)
    requires d.Valid() && d.stats.Length == BINS && st0 + 15 < BINS && i0 <= 1 && want + i0 <= 14
    requires (forall b: nat :: st0 <= b <= st0 + 14 - i0 ==> b in bins) && Grown(was, d.history, bins)
    modifies d, d.stats
    ensures Grown(was, d.history, bins) && d.SameSegment()
    ensures !status.OutOfData? ==> d.Valid()
    ensures status.Done? ==> i0 <= n <= 14 && st == st0 + n - i0 && m == Pow2(n)
    ensures old(d.Expects(Category(st0, want, next))) ==> status.Done? && n == want + i0 && d.Expects(next)
  {
    hide Grown, Decoder.Valid, Decoder.Expects;
    ghost var exp := d.Expects(Category(st0, want, next));
    Pow2Table();
    st, m, n := st0, Pow2(i0), i0;
    while true
      invariant d.Valid() && d.SameSegment() && Grown(was, d.history, bins)
      invariant i0 <= n <= 14 && st == st0 + n - i0 && m == Pow2(n)
      invariant exp ==> n <= want + i0 && d.Expects(Category(st, want + i0 - n, next))
      decreases 14 - n
    {
      ghost var left: nat := if n <= want + i0 then want + i0 - n else 0;
      var ok, bit := Ask(d, st, Decision(st, if left == 0 then 0 else 1),
                         if left == 0 then next else Category(st + 1, left - 1, next), was, bins);
      if !ok { return OutOfData, st, m, n; }
      if bit == 0 { return Done, st, m, n; }
      m := 2 * m;
      if m == 0x8000 {
        if exp { Pow2Mono(n + 1, 14); }
        return BadCode, st, m, n;
      }
      n := n + 1;
      st := st + 1;
    }
  }

  // A category, of which i0 ones have been decoded, and the bits below it.
  method GetHigh(d: Decoder, x: nat, i0: nat, ghost wn: nat, ghost low: nat, ghost next: seq<Decision>,
      ghost was: seq<Decision>, ghost bins: set<nat>)
    returns (status: Status, v: nat, m: nat)
    requires d.Valid() && d.stats.Length == BINS && x + 28 < BINS && i0 <= 1 && i0 <= wn <= 14 && low < Pow2(wn)
    requires (forall b: nat :: x <= b <= x + 28 ==> b in bins) && Grown(was, d.history, bins)
    modifies d, d.stats
    ensures Grown(was, d.history, bins) && d.SameSegment()
    ensures !status.OutOfData? ==> d.Valid()
    ensures status.Done? ==> v < MAG_LIMIT
    ensures old(d.Expects(Category(x, wn - i0, Pattern(x + wn - i0 + 14, low, wn, next)))) ==>
      status.Done? && v == Pow2(wn) + low && m == Pow2(wn) && d.Expects(next)
  {
    hide Grown, Decoder.Valid, Decoder.Expects, Category, Pattern;
    var st;
    ghost var n;
    v := 0;
    status, st, m, n := GetCategory(d, x, i0, wn - i0, Pattern(x + wn - i0 + 14, low, wn, next), was, bins);
    if !status.Done? { return; }
    Pow2Table();
    Pow2Mono(n, 14);
    var ok;
    ok, v := GetPattern(d, st + 14, m, n, if n == wn then low else 0, next, was, bins);
    if !ok { status := OutOfData; }
  }

  // Figures F.23 and F.24 for a DC difference.
  method GetDcMagnitude(d: Decoder, tbl: nat, sp: nat, ghost want: nat, ghost next: seq<Decision>,
      ghost was: seq<Decision>)
    returns (status: Status, v: nat, m: nat)
    requires d.Valid() && d.stats.Length == BINS && tbl < NUM_ARITH_TBLS && sp < BINS && want < MAG_LIMIT
    requires sp in DcArea(tbl) && Grown(was, d.history, DcArea(tbl))
    modifies d, d.stats
    ensures Grown(was, d.history, DcArea(tbl)) && d.SameSegment()
    ensures !status.OutOfData? ==> d.Valid()
    ensures status.Done? ==> v < MAG_LIMIT
    ensures old(d.Expects(DcMagnitude(tbl, sp, want, next))) ==>
      status.Done? && v == want && d.Expects(next) && m == if want == 0 then 0 else Pow2(Log2(want))
  {
    hide Grown, Decoder.Valid, Decoder.Expects, Category, Pattern, Log2;
    if want > 0 { Log2Limit(want); }
    ghost var wn: nat := if want > 0 then Log2(want) else 0;
    var x := DcBin(tbl, 20);
    ghost var tail := Pattern(x + wn + 14, if want > 0 then want - Pow2(wn) else 0, wn, next);
    v, m := 0, 0;
    ghost var bins := DcArea(tbl);
    var ok, bit := Ask(d, sp, Decision(sp, if want > 0 then 1 else 0), if want > 0 then Category(x, wn, tail) else next,
                       was, bins);
    if !ok { return OutOfData, v, m; }
    if bit == 0 { return Done, v, m; }
    status, v, m := GetHigh(d, x, 0, wn, if want > 0 then want - Pow2(wn) else 0, next, was, bins);
  }

  method GetAcMagnitude(d: Decoder, tbl: nat, k: nat, kx: nat, s: nat, ghost want: nat, ghost next: seq<Decision>,
      ghost was: seq<Decision>)
    returns (status: Status, v: nat)
    requires d.Valid() && d.stats.Length == BINS && tbl < NUM_ARITH_TBLS && s < BINS && want < MAG_LIMIT
    requires s in AcArea(tbl) && Grown(was, d.history, AcArea(tbl))
    modifies d, d.stats
    ensures Grown(was, d.history, AcArea(tbl)) && d.SameSegment()
    ensures !status.OutOfData? ==> d.Valid()
    ensures status.Done? ==> v < MAG_LIMIT
    ensures old(d.Expects(AcMagnitude(tbl, k, kx, s, want, next))) ==> status.Done? && v == want && d.Expects(next)
  {
    hide Grown, Decoder.Valid, Decoder.Expects, Category, Pattern, Log2;
    if want > 0 { Log2Limit(want); }
    ghost var wn: nat := if want > 0 then Log2(want) else 0;
    var x := AcCategoryBin(tbl, k, kx);
    ghost var low: nat := if want > 0 then want - Pow2(wn) else 0;
    ghost var tail := Pattern(x + wn + 13, low, wn, next);
    ghost var after1 := if want == 0 then next else if want == 1 then [Decision(s, 0)] + next
                        else [Decision(s, 1)] + Category(x, wn - 1, tail);
    v := 0;
    ghost var bins := AcArea(tbl);
    var ok, bit := Ask(d, s, Decision(s, if want > 0 then 1 else 0), after1, was, bins);
    if !ok { return OutOfData, v; }
    if bit == 0 { return Done, v; }
    ok, bit := Ask(d, s, Decision(s, if want > 1 then 1 else 0), if want > 1 then Category(x, wn - 1, tail) else next,
                   was, bins);
    if !ok { return OutOfData, v; }
    if bit == 0 { return Done, 1; }
    var m;
    status, v, m := GetHigh(d, x, 1, if want > 1 then wn else 1, if want > 1 then low else 0, next, was, bins);
  }

  // Figure F.19: a DC difference and the next conditioning category.
  method GetDc(d: Decoder, c: Comp, ctx: nat, ghost want: int, ghost next: seq<Decision>)
    returns (status: Status, diff: int, ctx': nat)
    requires d.Valid() && d.stats.Length == BINS && GoodComp(c) && GoodCtx(ctx) && InLimit(want)
    modifies d, d.stats
    ensures Grown(old(d.history), d.history, DcArea(c.dcTbl)) && d.SameSegment()
    ensures !status.OutOfData? ==> d.Valid()
    ensures status.Done? ==> InLimit(diff) && GoodCtx(ctx')
    ensures old(d.Expects(DcDecisions(c, ctx, want, next))) ==>
      status.Done? && diff == want && ctx' == NextCtx(c, want) && d.Expects(next)
  {
    hide Grown, DcArea, DcBin, DcMagnitude, Log2, Decoder.Valid, Decoder.Expects;
    var st := DcBin(c.dcTbl, ctx);
    DcBinInArea(c, ctx);
    diff, ctx' := 0, 0;
    ghost var wv: nat := if want == 0 then 0 else Abs(want) - 1;
    ghost var tail := DcMagnitude(c.dcTbl, st + 2 + Sign(want), wv, next);
    ghost var was, bins := d.history, DcArea(c.dcTbl);
    GrownNot(was, bins);
    var ok, bit := Ask(d, st, Decision(st, if want == 0 then 0 else 1),
                       if want == 0 then next else [Decision(st + 1, Sign(want))] + tail, was, bins);
    if !ok { return OutOfData, diff, ctx'; }
    if bit == 0 { return Done, diff, ctx'; }
    var sign;
    ok, sign := Ask(d, st + 1, Decision(st + 1, Sign(want)), tail, was, bins);
    if !ok { return OutOfData, diff, ctx'; }
    var v, m;
    status, v, m := GetDcMagnitude(d, c.dcTbl, st + 2 + sign, wv, next, was);
    if !status.Done? { return; }
    ctx' := Conditioning(c, m, sign);
    var mag: int := v + 1;
    diff := if sign == 1 then -mag else mag;
  }

  method GetNonzero(d: Decoder, c: Comp, k: nat, ghost want: int, ghost next: seq<Decision>, ghost was: seq<Decision>)
    returns (status: Status, coef: int)
    requires d.Valid() && d.stats.Length == BINS && GoodComp(c) && 1 <= k < 64 && InLimit(want) && want != 0
    requires Grown(was, d.history, AcArea(c.acTbl))
    modifies d, d.stats
    ensures Grown(was, d.history, AcArea(c.acTbl)) && d.SameSegment()
    ensures !status.OutOfData? ==> d.Valid()
    ensures status.Done? ==> InLimit(coef)
    ensures old(d.Expects([Decision(FIXED_BIN, Sign(want))]
                          + AcMagnitude(c.acTbl, k, c.acK, EobBin(c, k) + 2, Abs(want) - 1, next))) ==>
      status.Done? && coef == want && d.Expects(next)
  {
    hide Grown, Decoder.Valid, Decoder.Expects;
    var st := EobBin(c, k);
    EobBinInArea(c, k);
    var ok, sign := Ask(d, FIXED_BIN, Decision(FIXED_BIN, Sign(want)),
                        AcMagnitude(c.acTbl, k, c.acK, st + 2, Abs(want) - 1, next), was, AcArea(c.acTbl));
    if !ok { return OutOfData, 0; }
    var v;
    status, v := GetAcMagnitude(d, c.acTbl, k, c.acK, st + 2, Abs(want) - 1, next, was);
    if !status.Done? { return status, 0; }
    var mag: int := v + 1;
    coef := if sign == 1 then -mag else mag;
  }

  // What is expected inside a run, told apart by its first coefficient.
  ghost function AfterZero(c: Comp, z: seq<int>, limSe: nat, k: nat, ke: nat, next: seq<Decision>): seq<Decision>
    requires GoodComp(c) && GoodBlock(z, limSe) && 1 <= k <= ke <= limSe && z[ke] != 0
  {
    if z[k] == 0 then RunFrom(c, z, limSe, k + 1, ke, next)
    else [Decision(FIXED_BIN, Sign(z[k]))]
         + AcMagnitude(c.acTbl, k, c.acK, EobBin(c, k) + 2, Abs(z[k]) - 1, AcFrom(c, z, limSe, k + 1, ke, next))
  }

  lemma RunSplit(c: Comp, z: seq<int>, limSe: nat, k: nat, ke: nat, next: seq<Decision>)
    requires GoodComp(c) && GoodBlock(z, limSe) && 1 <= k <= ke <= limSe && z[ke] != 0
    ensures RunFrom(c, z, limSe, k, ke, next)
         == [Decision(EobBin(c, k) + 1, if z[k] == 0 then 0 else 1)] + AfterZero(c, z, limSe, k, ke, next)
  {
  }

  // "while (arith_decode(cinfo, st + 1) == 0) { st += 3; k++; ... }" and the coefficient.
  method GetRun(d: Decoder, c: Comp, limSe: nat, k0: nat, ghost z: seq<int>, ghost ke: nat, ghost next: seq<Decision>,
      ghost was: seq<Decision>)
    returns (status: Status, k: nat, coef: int)
    requires d.Valid() && d.stats.Length == BINS && GoodComp(c) && 1 <= k0 <= limSe
    requires GoodBlock(z, limSe) && ke <= limSe && (ke > 0 ==> z[ke] != 0)
    requires Grown(was, d.history, AcArea(c.acTbl))
    modifies d, d.stats
    ensures Grown(was, d.history, AcArea(c.acTbl)) && d.SameSegment()
    ensures !status.OutOfData? ==> d.Valid()
    ensures status.Done? ==> k0 <= k <= limSe
    ensures k0 <= ke && old(d.Expects(RunFrom(c, z, limSe, k0, ke, next))) ==>
      && status.Done? && k <= ke && coef == z[k] != 0 && (forall i :: k0 <= i < k ==> z[i] == 0)
      && d.Expects(AcFrom(c, z, limSe, k + 1, ke, next))
  {
    hide Grown, Decoder.Valid, Decoder.Expects, RunFrom, AcFrom, AcMagnitude;
    ghost var exp := k0 <= ke && d.Expects(RunFrom(c, z, limSe, k0, ke, next));
    k, coef := k0, 0;
    while true
      invariant d.Valid() && d.SameSegment() && k0 <= k <= limSe && Grown(was, d.history, AcArea(c.acTbl))
      invariant exp ==>
          k <= ke && (forall i :: k0 <= i < k ==> z[i] == 0) && d.Expects(RunFrom(c, z, limSe, k, ke, next))
      decreases limSe - k
    {
      var st := EobBin(c, k);
      ghost var hit := exp && z[k] != 0;
      if exp { RunSplit(c, z, limSe, k, ke, next); }
      EobBinInArea(c, k);
      var ok, bit := Ask(d, st + 1, Decision(st + 1, if hit then 1 else 0),
                         if exp then AfterZero(c, z, limSe, k, ke, next) else [], was, AcArea(c.acTbl));
      if !ok { return OutOfData, k, 0; }
      if bit != 0 { break; }
      k := k + 1;
      if k > limSe { return BadCode, k, 0; }
    }
    status, coef := GetNonzero(d, c, k, if exp then z[k] else 1,
                               if exp then AcFrom(c, z, limSe, k + 1, ke, next) else [], was);
  }

  // Positions 1..k-1 of the block hold the wanted coefficients, the rest are zero.
  ghost predicate FilledTo(order: seq<nat>, b: seq<int>, z: seq<int>, k: nat, limSe: nat)
    requires GoodOrder(order) && |b| == 64 && |z| > limSe && limSe < 64 && k <= limSe + 1
  {
    && (forall i :: 1 <= i < k ==> b[order[i]] == z[i])
    && (forall i :: k <= i <= limSe ==> b[order[i]] == 0)
  }

  lemma FillOne(order: seq<nat>, b: seq<int>, z: seq<int>, k0: nat, k: nat, limSe: nat)
    requires GoodOrder(order) && |b| == 64 && |z| > limSe && limSe < 64 && 1 <= k0 <= k <= limSe
    requires FilledTo(order, b, z, k0, limSe) && forall i :: k0 <= i < k ==> z[i] == 0
    ensures FilledTo(order, b[order[k] := z[k]], z, k + 1, limSe)
  {
  }

  // Figure F.20, into a block whose AC coefficients the caller has cleared.
  method GetAc(d: Decoder, c: Comp, limSe: nat, order: seq<nat>, block: array<int>, ghost z: seq<int>,
      ghost next: seq<Decision>)
    returns (status: Status)
    requires d.Valid() && d.stats.Length == BINS && GoodComp(c) && GoodBlock(z, limSe)
    requires GoodOrder(order) && block.Length == 64 && block != d.stats
    requires forall i :: 1 <= i <= limSe ==> block[order[i]] == 0
    modifies d, d.stats, block
    ensures Grown(old(d.history), d.history, AcArea(c.acTbl)) && d.SameSegment()
    ensures !status.OutOfData? ==> d.Valid()
    ensures forall i :: 0 <= i < 64 && (i == 0 || i > limSe) ==> block[order[i]] == old(block[order[i]])
    ensures old(d.Expects(AcDecisions(c, z, limSe, next))) ==>
      status.Done? && d.Expects(next) && forall i :: 1 <= i <= limSe ==> block[order[i]] == z[i]
  {
    hide Grown, Decoder.Valid, Decoder.Expects;
    ghost var ke := EobIndex(z, limSe);
    ghost var exp := d.Expects(AcDecisions(c, z, limSe, next));
    ghost var was := d.history;
    GrownNot(was, AcArea(c.acTbl));
    var k := 1;
    while k <= limSe
      invariant d.Valid() && d.SameSegment() && 1 <= k <= limSe + 1 && Grown(was, d.history, AcArea(c.acTbl))
      invariant forall i :: 0 <= i < 64 && (i == 0 || i > limSe) ==> block[order[i]] == old(block[order[i]])
      invariant exp ==> d.Expects(AcFrom(c, z, limSe, k, ke, next)) && FilledTo(order, block[..], z, k, limSe)
      decreases limSe + 1 - k
    {
      ghost var more := exp && k <= ke;
      EobBinInArea(c, k);
      var ok, bit := Ask(d, EobBin(c, k), Decision(EobBin(c, k), if more then 0 else 1),
                         if more then RunFrom(c, z, limSe, k, ke, next) else next, was, AcArea(c.acTbl));
      if !ok { return OutOfData; }
      if bit != 0 { return Done; }
      ghost var k0, before := k, block[..];
      var coef;
      status, k, coef := GetRun(d, c, limSe, k, z, ke, next, was);
      if !status.Done? { return; }
      if exp { FillOne(order, before, z, k0, k, limSe); }
      block[order[k]] := ToJcoef(coef);
      assert block[..] == before[order[k] := ToJcoef(coef)];
      k := k + 1;
    }
    status := Done;
  }

  // A decoded block: the positions up to limSe as encoded, the others still zero.
  predicate Decoded(order: seq<nat>, limSe: nat, b: seq<int>, z: seq<int>)
    requires GoodOrder(order) && limSe < 64
  {
    && |b| == 64 && |z| > limSe
    && (forall k :: 0 <= k <= limSe ==> b[order[k]] == z[k])
    && (forall k :: limSe < k < 64 ==> b[order[k]] == 0)
  }

  // With all 64 positions coded the block is back exactly.
  lemma DecodedInFull(order: seq<nat>, b: seq<int>, block: seq<int>)
    requires GoodOrder(order) && |block| == 64 && Decoded(order, 63, b, Zigzag(order, block))
    ensures b == block
  {
    forall i | 0 <= i < 64 ensures b[i] == block[i] {
      var k := Position(order, i);
    }
  }

  class ScanDecoder {
    const d: Decoder
    const scan: Scan
    const order: seq<nat>
    var lastDc: seq<int>
    var dcContext: seq<nat>
    var failed: bool          // entropy->ct == -1
    var restartsToGo: nat
    var nextRestartNum: nat

    function P(): Pred
      reads this`lastDc, this`dcContext
    {
      Pred(lastDc, dcContext)
    }

    ghost predicate Valid()
      reads this`lastDc, this`dcContext, this`nextRestartNum, d, d.stats
    {
      && d.entry == State(FULL, StartStats()) && nextRestartNum < 8
      && GoodScan(scan) && GoodOrder(order) && GoodPred(scan, P())
      && d.stats.Length == BINS && d.Valid()
    }

    // start_pass
    constructor (d: Decoder, scan: Scan, order: seq<nat>)
      requires d.Valid() && d.stats.Length == BINS && GoodScan(scan) && GoodOrder(order)
      requires d.entry == State(FULL, StartStats())
      ensures Valid() && !failed && this.d == d && this.scan == scan && this.order == order
      ensures P() == StartPred(scan) && restartsToGo == scan.interval && nextRestartNum == 0
    {
      this.d, this.scan, this.order, failed := d, scan, order, false;
      lastDc, dcContext := seq(|scan.comps|, _ => 0), seq(|scan.comps|, _ => 0);
      restartsToGo, nextRestartNum := scan.interval, 0;
    }

    // The restart marker behind the segment at hand, when it is the expected one.
    ghost predicate MarkerIsNext()
      reads this`nextRestartNum, d`base
    {
      var f := MarkerAfter(d.input, d.base);
      f.Marker? && f.code == RST0 + nextRestartNum
    }

    // process_restart; it is an error when no marker comes any more. A segment whose code
    // was found bad ends here.
    method ProcessRestart() returns (ok: bool)
      requires Valid()
      modifies this, d, d.stats
      ensures ok <==> old(MarkerIsNext())
      ensures ok ==>
        && Valid() && !failed && P() == StartPred(scan) && restartsToGo == scan.interval
        && nextRestartNum == (old(nextRestartNum) + 1) % 8
        && d.base == NextStart(d.input, old(d.base)) && d.history == []
    {
      hide MarkerAfter, Decoder.Valid, GoodStats;
      var r := d.ProcessRestart(nextRestartNum, StartStats());
      if r != Restarted { return false; }
      nextRestartNum := (nextRestartNum + 1) % 8;
      lastDc, dcContext := seq(|scan.comps|, _ => 0), seq(|scan.comps|, _ => 0);
      failed := false;
      restartsToGo := scan.interval;
      ok := true;
    }

    // The MCU comes next: here, or behind a restart marker that is due.
    ghost predicate McuAhead(want: seq<seq<int>>, next: seq<Decision>)
      requires GoodScan(scan) && GoodOrder(order) && GoodPred(scan, P())
      reads this, d`base, d`entry, d`history
    {
      var p := PredHere(scan, restartsToGo, P());
      && |want| == |scan.membership| && Blocks(want) && Codable(scan, p, Zigzags(order, want))
      && var ds := McuDecisions(scan, p, Zigzags(order, want), next);
         if IsDue(scan.interval, restartsToGo) then
           MarkerIsNext() && Streams(d.table, ds, d.input, NextStart(d.input, d.base))
         else
           !failed && d.Expects(ds)
    }

    // decode_mcu; false means the source gave out, or a marker is out of step.
    method DecodeMcu(mcu: seq<array<int>>, ghost exp: bool, ghost want: seq<seq<int>>, ghost next: seq<Decision>)
      returns (ok: bool)
      requires Valid() && |mcu| == |scan.membership|
      requires forall i :: 0 <= i < |mcu| ==> mcu[i].Length == 64 && mcu[i] != d.stats
      requires forall i, j :: 0 <= i < j < |mcu| ==> mcu[i] != mcu[j]
      requires forall i, k :: 0 <= i < |mcu| && 0 <= k < 64 ==> mcu[i][k] == 0
      requires exp ==> McuAhead(want, next)
      modifies this, d, d.stats, set a | a in mcu
      ensures ok ==> Valid() && restartsToGo == ToGoNext(scan.interval, old(restartsToGo))
      ensures ok ==>
        if IsDue(scan.interval, old(restartsToGo)) then
          && nextRestartNum == (old(nextRestartNum) + 1) % 8 && d.base == NextStart(d.input, old(d.base))
          && Grown([], d.history, ScanArea(scan.comps))
        else
          && nextRestartNum == old(nextRestartNum) && d.base == old(d.base)
          && Grown(old(d.history), d.history, ScanArea(scan.comps))
      ensures exp ==>
        && ok && !failed && d.Expects(next)
        && P() == FinalPred(scan, PredHere(scan, old(restartsToGo), old(P())), Zigzags(order, want))
        && forall i :: 0 <= i < |mcu| ==> Decoded(order, scan.limSe, mcu[i][..], Zigzag(order, want[i]))
    {
      hide Decoder.Valid, Decoder.Expects, Codable, Zigzags, McuDecisions, FinalPred, GoodOrder, Decoded, Grown,
          Streams, MarkerIsNext, NextStart, ScanArea;
      ghost var p := PredHere(scan, restartsToGo, P());
      if scan.interval != 0 {
        if restartsToGo == 0 {
          ok := ProcessRestart();
          if !ok { return; }
          if exp { NextExpected(McuDecisions(scan, p, Zigzags(order, want), next)); }
        }
        restartsToGo := restartsToGo - 1;
      }
      ok := DecodeBlocks(mcu, exp, want, next);
    }

    lemma NextExpected(ds: seq<Decision>)
      requires Valid() && d.history == [] && Streams(d.table, ds, d.input, d.base)
      ensures d.Expects(ds)
    {
    }

    method DecodeBlock(ci: nat, block: array<int>, ghost exp: bool, ghost z: seq<int>, ghost next: seq<Decision>)
      returns (status: Status)
      requires Valid() && !failed && ci < |scan.comps|
      requires block.Length == 64 && block != d.stats && forall i :: 0 <= i < 64 ==> block[i] == 0
      requires exp ==> GoodBlock(z, scan.limSe) && InLimit(z[0] - lastDc[ci])
      modifies this`lastDc, this`dcContext, d, d.stats, block
      ensures Grown(old(d.history), d.history, CompArea(scan.comps[ci])) && d.SameSegment()
      ensures !status.OutOfData? ==> Valid()
      ensures GoodPred(scan, P())
      ensures exp && old(d.Expects(DcDecisions(scan.comps[ci], dcContext[ci], z[0] - lastDc[ci],
                              AcDecisions(scan.comps[ci], z, scan.limSe, next)))) ==>
        && status.Done? && d.Expects(next) && P() == NextPred(scan, old(P()), ci, z[0])
        && Decoded(order, scan.limSe, block[..], z)
    {
      hide Grown, Decoder.Valid, Decoder.Expects, DcDecisions, AcDecisions;
      var c := scan.comps[ci];
      var diff, ctx;
      ghost var z', was := if exp then z else seq(64, _ => 0), d.history;
      status, diff, ctx := GetDc(d, c, dcContext[ci], if exp then z[0] - lastDc[ci] else 0,
                                 AcDecisions(c, z', scan.limSe, next));
      GrownIn(was, d.history, DcArea(c.dcTbl), CompArea(c));
      if !status.Done? { return; }
      lastDc, dcContext := lastDc[ci := lastDc[ci] + diff], dcContext[ci := ctx];
      block[0] := ToJcoef(lastDc[ci]);
      ghost var between := d.history;
      status := GetAc(d, c, scan.limSe, order, block, z', next);
      GrownIn(between, d.history, AcArea(c.acTbl), CompArea(c));
      GrownMore(was, between, d.history, CompArea(c));
    }

    // The blocks of an MCU. When the code is found bad, this and all later MCUs of the
    // segment are left as they are; false means the source gave out.
    method DecodeBlocks(mcu: seq<array<int>>, ghost exp: bool, ghost want: seq<seq<int>>, ghost next: seq<Decision>)
      returns (ok: bool)
      requires Valid() && |mcu| == |scan.membership|
      requires forall i :: 0 <= i < |mcu| ==> mcu[i].Length == 64 && mcu[i] != d.stats
      requires forall i, j :: 0 <= i < j < |mcu| ==> mcu[i] != mcu[j]
      requires forall i, k :: 0 <= i < |mcu| && 0 <= k < 64 ==> mcu[i][k] == 0
      requires exp ==> |want| == |mcu| && Blocks(want) && Codable(scan, P(), Zigzags(order, want))
      requires exp ==> !failed && d.Expects(McuDecisions(scan, P(), Zigzags(order, want), next))
      modifies this`lastDc, this`dcContext, this`failed, d, d.stats, set a | a in mcu
      ensures Grown(old(d.history), d.history, ScanArea(scan.comps)) && d.SameSegment()
      ensures ok ==> Valid()
      ensures exp ==>
        && ok && !failed && d.Expects(next) && P() == FinalPred(scan, old(P()), Zigzags(order, want))
        && forall i :: 0 <= i < |mcu| ==> Decoded(order, scan.limSe, mcu[i][..], Zigzag(order, want[i]))
    {
      hide Grown, Decoder.Valid, Decoder.Expects, Codable, Zigzags, McuDecisions, FinalPred, DcDecisions, AcDecisions,
        GoodOrder, Decoded, ScanArea, CompArea, StartStats;
      ghost var was, bins := d.history, ScanArea(scan.comps);
      GrownNot(was, bins);
      if failed { return true; }
      ghost var now := want;
      for blkn := 0 to |mcu|
        invariant Valid() && d.SameSegment() && !failed && (exp ==> now == want[blkn..]) && Grown(was, d.history, bins)
        invariant forall i, k :: blkn <= i < |mcu| && 0 <= k < 64 ==> mcu[i][k] == 0
        invariant exp ==> Codable(scan, P(), Zigzags(order, now))
        invariant exp ==> d.Expects(McuDecisions(scan, P(), Zigzags(order, now), next))
        invariant exp ==> FinalPred(scan, P(), Zigzags(order, now)) == FinalPred(scan, old(P()), Zigzags(order, want))
        invariant exp ==> forall i :: 0 <= i < blkn ==> Decoded(order, scan.limSe, mcu[i][..], Zigzag(order, want[i]))
      {
        var ci := scan.membership[blkn];
        ghost var z, after := [], [];
        if exp {
          McuStep(scan, P(), order, now, next);
          z := Zigzag(order, want[blkn]);
          after := McuDecisions(scan, NextPred(scan, P(), ci, z[0]), Zigzags(order, now[1..]), next);
        }
        ghost var before := d.history;
        var status := DecodeBlock(ci, mcu[blkn], exp, z, after);
        GrownIn(before, d.history, CompArea(scan.comps[ci]), bins);
        GrownMore(was, before, d.history, bins);
        if status.OutOfData? { return false; }
        if status.BadCode? { failed := true; return true; }
        if exp { now := now[1..]; }
      }
      if exp { McuEnd(scan, P(), order, now, next); }
      ok := true;
    }
  }
}
