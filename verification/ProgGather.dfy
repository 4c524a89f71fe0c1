// The statistics pass of progressive scans: which symbols there can be, and why the
// tables made from the counts have a code for each of them.
module ProgGather {
  import opened HuffGen
  import opened HuffDerived
  import opened HuffTokens
  import opened HuffBlock
  import opened HuffSeqGather
  import opened HuffSeqScan
  import opened HuffTree
  import HuffMerges
  import opened HuffOptimise
  import opened ProgTokens
  import opened ProgDc
  import opened P = ProgEncoder

  // ---- The symbols of a scan ---------------------------------------------------------------------------------------

  // All symbols belong to the tables tbls and are of the expected kind.
  predicate Uses(toks: seq<Token>, isDC: bool, tbls: seq<nat>) {
    forall tok <- toks ::
        tok.Sym? ==> tok.tbl in tbls && if isDC then DcSymbol(tok, tok.tbl) else AcSymbol(tok, tok.tbl)
  }

  lemma UsesMore(a: seq<Token>, b: seq<Token>, isDC: bool, tbls: seq<nat>)
    requires Uses(a, isDC, tbls) && Uses(b, isDC, tbls)
    ensures Uses(a + b, isDC, tbls)
  {
  }

  lemma EobUses(tbl: nat, e: nat)
    requires tbl < NUM_HUFF_TBLS && e <= MAX_EOBRUN
    ensures Uses(EobTokens(tbl, e), false, [tbl]) && (e > 0 ==> Has(EobTokens(tbl, e), false, tbl))
  {
    hide BitLen;
    if e > 0 { FirstHas(EobTokens(tbl, e), false, tbl); }
  }

  lemma {:induction false} NonzeroUses(tbl: nat, r: nat, v: int)
    requires tbl < NUM_HUFF_TBLS && v != 0 && AcInRange(v)
    ensures Uses(NonzeroTokens(tbl, r, v), false, [tbl])
    decreases r
  {
    hide Extra, BitLen;
    if r > 15 { NonzeroUses(tbl, r - 16, v); }
  }

  lemma {:induction false} CoefsUse(tbl: nat, t: seq<int>, k: nat, r: nat)
    requires tbl < NUM_HUFF_TBLS && BandInRange(t)
    ensures Uses(CoefTokens(tbl, t, k, r), false, [tbl])
    ensures !(forall i :: k <= i < |t| ==> t[i] == 0) ==> Has(CoefTokens(tbl, t, k, r), false, tbl)
    decreases |t| - k
  {
    hide NonzeroTokens, Has, AcInRange;
    if k >= |t| {
    } else if t[k] == 0 {
      CoefsUse(tbl, t, k + 1, r + 1);
    } else {
      CoefsUse(tbl, t, k + 1, 0);
      NonzeroUses(tbl, r, t[k]);
      NonzeroHas(tbl, r, t[k]);
      HasMore(NonzeroTokens(tbl, r, t[k]), CoefTokens(tbl, t, k + 1, 0), false, tbl);
    }
  }

  lemma NonzeroHas(tbl: nat, r: nat, v: int)
    requires tbl < NUM_HUFF_TBLS && v != 0 && AcInRange(v)
    ensures Has(NonzeroTokens(tbl, r, v), false, tbl)
  {
    hide BitLen, Extra;
    FirstHas(NonzeroTokens(tbl, r, v), false, tbl);
  }

  lemma StepFirstUses(tbl: nat, t: seq<int>, e: nat)
    requires tbl < NUM_HUFF_TBLS && BandInRange(t) && t != [] && e < MAX_EOBRUN
    ensures var st := StepFirst(tbl, t, e); Uses(st.toks, false, [tbl]) && (st.run == 0 ==> Has(st.toks, false, tbl))
  {
    hide EobTokens, CoefTokens, Has, AcInRange;
    EobUses(tbl, e);
    EobUses(tbl, MAX_EOBRUN);
    CoefsUse(tbl, t, 0, 0);
    var body := if AllZero(t) then [] else EobTokens(tbl, e) + CoefTokens(tbl, t, 0, 0);
    if !AllZero(t) { HasMore(EobTokens(tbl, e), CoefTokens(tbl, t, 0, 0), false, tbl); }
    HasMore(body, EobTokens(tbl, MAX_EOBRUN), false, tbl);
  }

  // Every scan of at least one block has a symbol.
  lemma {:induction false} ScanFirstUses(tbl: nat, ts: seq<seq<int>>, n: nat, e: nat)
    requires tbl < NUM_HUFF_TBLS && n > 0 && BandsInRange(ts, n) && e < MAX_EOBRUN
    ensures Uses(ScanFirst(tbl, ts, n, e), false, [tbl])
    ensures ts != [] || e > 0 ==> Has(ScanFirst(tbl, ts, n, e), false, tbl)
    decreases |ts|
  {
    hide EobTokens, StepFirst, Has, BandInRange;
    if ts == [] {
      EobUses(tbl, e);
    } else {
      var st := StepFirst(tbl, ts[0], e);
      StepFirstUses(tbl, ts[0], e);
      ScanFirstUses(tbl, ts[1..], n, st.run);
      HasMore(st.toks, ScanFirst(tbl, ts[1..], n, st.run), false, tbl);
    }
  }

  lemma RawsUse(b: seq<bool>, isDC: bool, tbls: seq<nat>)
    ensures Uses(RawBits(b), isDC, tbls)
  {
  }

  lemma RunUses(tbl: nat, e: nat, be: seq<bool>)
    requires tbl < NUM_HUFF_TBLS && e <= MAX_EOBRUN
    ensures Uses(RunTokens(tbl, e, be), false, [tbl]) && (e > 0 ==> Has(RunTokens(tbl, e, be), false, tbl))
  {
    hide EobTokens, Has;
    EobUses(tbl, e);
    RawsUse(be, false, [tbl]);
    if e > 0 { HasMore(EobTokens(tbl, e), RawBits(be), false, tbl); }
  }

  lemma {:induction false} RefinesUse(tbl: nat, m: seq<Mag>, k: nat, r: nat, br: seq<bool>)
    requires tbl < NUM_HUFF_TBLS
    ensures Uses(RefineTokens(tbl, m, k, r, br), false, [tbl])
    ensures k < NewEnd(m) ==> Has(RefineTokens(tbl, m, k, r, br), false, tbl)
    decreases |m| - k, r
  {
    hide Has, NewEnd;
    var toks := RefineTokens(tbl, m, k, r, br);
    RawsUse(br, false, [tbl]);
    if k >= NewEnd(m) {
    } else if m[k].abs == 0 {
      LastIsNew(m, k);
      RefinesUse(tbl, m, k + 1, r + 1, br);
    } else if r > 15 {
      RefinesUse(tbl, m, k, r - 16, []);
      FirstHas(toks, false, tbl);
    } else if m[k].abs > 1 {
      LastIsNew(m, k);
      RefinesUse(tbl, m, k + 1, r, br + [m[k].abs % 2 == 1]);
    } else {
      RefinesUse(tbl, m, k + 1, 0, []);
      FirstHas(toks, false, tbl);
    }
  }

  lemma LastIsNew(m: seq<Mag>, k: nat)
    requires k < NewEnd(m) && m[k].abs != 1
    ensures k + 1 < NewEnd(m)
  {
  }

  lemma StepRefineUses(tbl: nat, m: seq<Mag>, e: nat, be: seq<bool>)
    requires tbl < NUM_HUFF_TBLS && m != [] && e < MAX_EOBRUN && (e == 0 ==> be == [])
    ensures var st := StepRefine(tbl, m, e, be);
    Uses(st.toks, false, [tbl]) && (st.run == 0 ==> Has(st.toks, false, tbl))
  {
    hide RunTokens, RefineTokens, Has, NewEnd, Corrections;
    RunUses(tbl, e, be);
    RefinesUse(tbl, m, 0, 0, []);
    var any := NewEnd(m) > 0;
    var body := if any then RunTokens(tbl, e, be) + RefineTokens(tbl, m, 0, 0, []) else [];
    var run, bits := if any then 0 else e, if any then [] else be;
    if any { HasMore(RunTokens(tbl, e, be), RefineTokens(tbl, m, 0, 0, []), false, tbl); }
    var more := bits + Corrections(m, NewEnd(m));
    RunUses(tbl, run + 1, more);
    HasMore(body, RunTokens(tbl, run + 1, more), false, tbl);
  }

  lemma {:induction false} ScanRefineUses(tbl: nat, ms: seq<seq<Mag>>, n: nat, e: nat, be: seq<bool>)
    requires tbl < NUM_HUFF_TBLS && n > 0 && BandsOf(ms, n) && e < MAX_EOBRUN && (e == 0 ==> be == [])
    ensures Uses(ScanRefine(tbl, ms, n, e, be), false, [tbl])
    ensures ms != [] || e > 0 ==> Has(ScanRefine(tbl, ms, n, e, be), false, tbl)
    decreases |ms|
  {
    hide RunTokens, StepRefine, Has;
    if ms == [] {
      RunUses(tbl, e, be);
    } else {
      var st := StepRefine(tbl, ms[0], e, be);
      StepRefineUses(tbl, ms[0], e, be);
      ScanRefineUses(tbl, ms[1..], n, st.run, st.bits);
      HasMore(st.toks, ScanRefine(tbl, ms[1..], n, st.run, st.bits), false, tbl);
    }
  }

  lemma DcUses(tbl: nat, diff: int, tbls: seq<nat>)
    requires tbl < NUM_HUFF_TBLS && DcInRange(diff) && tbl in tbls
    ensures Has(DcTokens(tbl, diff), true, tbl) && Uses(DcTokens(tbl, diff), true, tbls)
  {
    hide BitLen, Extra;
    FirstHas(DcTokens(tbl, diff), true, tbl);
  }

  lemma {:induction false} DcScanUses(tbls: seq<nat>, last: seq<int>, units: seq<Unit>, al: nat)
    requires GoodUnits(tbls, units) && |last| == |tbls| && DcFits(tbls, last, units, al)
    ensures Uses(DcScanTokens(tbls, last, units, al), true, tbls)
    ensures forall i :: 0 <= i < |units| ==> Has(DcScanTokens(tbls, last, units, al), true, tbls[units[i].ci])
    decreases |units|
  {
    hide DcTokens, Has, Uses, Floored, DcInRange;
    if units == [] {
      NothingUsed(true, tbls);
    } else {
      var u, v := units[0], Floored(units[0].dc, al);
      var a, b := DcTokens(tbls[u.ci], v - last[u.ci]), DcScanTokens(tbls, last[u.ci := v], units[1..], al);
      var next := last[u.ci := v];
      DcUses(tbls[u.ci], v - last[u.ci], tbls);
      DcScanUses(tbls, next, units[1..], al);
      UsesMore(a, b, true, tbls);
      EachHas(a, b, tbls, units);
    }
  }

  lemma EachHas(a: seq<Token>, b: seq<Token>, tbls: seq<nat>, units: seq<Unit>)
    requires GoodUnits(tbls, units) && units != [] && Has(a, true, tbls[units[0].ci])
    requires forall i :: 0 <= i < |units| - 1 ==> Has(b, true, tbls[units[1..][i].ci])
    ensures forall i :: 0 <= i < |units| ==> Has(a + b, true, tbls[units[i].ci])
  {
    hide Has;
    forall i | 0 <= i < |units| ensures Has(a + b, true, tbls[units[i].ci]) {
      if i > 0 { assert units[i] == units[1..][i - 1]; }
      HasMore(a, b, true, tbls[units[i].ci]);
    }
  }

  lemma NothingUsed(isDC: bool, tbls: seq<nat>)
    ensures Uses([], isDC, tbls)
  {
  }

  // ---- finish_pass_gather ------------------------------------------------------------------------------------------

  // Tables and their codes; only those that were made mean anything.
  datatype Tabs = Tabs(ts: seq<HuffTbl>, cs: seq<CTbl>)

  function CodesOf(isDC: bool, t: Tabs): Tables {
    var none := seq(NUM_HUFF_TBLS, _ => NO_TABLE);
    if isDC then Tables(t.cs, none) else Tables(none, t.cs)
  }

  ghost predicate MadeFor(isDC: bool, tbls: seq<nat>, t: Tabs) {
    && |t.ts| == |t.cs| == NUM_HUFF_TBLS && GoodTables(CodesOf(isDC, t))
    && forall i ::
        0 <= i < |tbls| ==>
        tbls[i] < NUM_HUFF_TBLS && Paired(t.ts[tbls[i]], t.cs[tbls[i]]) && EncoderAccepts(isDC, t.ts[tbls[i]])
  }

  lemma NoTableIsGood()
    ensures GoodCTbl(NO_TABLE)
  {
  }

  predicate AnyTooLong(log: seq<Token>, isDC: bool, tbls: seq<nat>) {
    exists i :: 0 <= i < |tbls| && CodeTooLong(log, isDC, tbls[i])
  }

  // A scan of fewer than 9227464 symbols does not run into that limit.
  lemma FewSymbolsAnyTable(log: seq<Token>, isDC: bool, tbls: seq<nat>)
    requires TokensOk(log) && |log| + 1 < HuffMerges.FIB35
    ensures !AnyTooLong(log, isDC, tbls)
  {
    hide CodeTooLong;
    forall i | 0 <= i < |tbls| ensures !CodeTooLong(log, isDC, tbls[i]) { FewSymbolsFit(log, isDC, tbls[i]); }
  }

  // Makes a table for each of tbls from what e has counted.
  method FinishPassGather(e: P.ProgEncoder, isDC: bool, tbls: seq<nat>) returns (ok: bool, t: Tabs)
    requires e.Sound() && e.gather && TokensOk(e.All()) && |e.All()| < MAX_COUNT && Uses(e.All(), isDC, tbls)
    requires forall i :: 0 <= i < |tbls| ==> tbls[i] < NUM_HUFF_TBLS && Has(e.All(), isDC, tbls[i])
    modifies e.dcCounts, e.acCounts
    ensures !ok <==> AnyTooLong(old(e.All()), isDC, tbls)
    ensures ok ==> MadeFor(isDC, tbls, t) && TokensCoded(CodesOf(isDC, t), e.All())
    ensures ok ==> forall i :: 0 <= i < |tbls| ==> Shortest(e.All(), t.cs[tbls[i]], isDC, tbls[i])
  {
    hide Made, Tallied, CodeTooLong, Paired, NoMissing, Shortest, Expected, TokenOk, TokensCoded, Has, Uses, GoodCTbl,
        Waiting, EncoderAccepts;
    ghost var log := e.All();
    var did := seq(NUM_HUFF_TBLS, _ => false);
    var none := HuffTbl([], []);
    t := Tabs(seq(NUM_HUFF_TBLS, _ => none), seq(NUM_HUFF_TBLS, _ => NO_TABLE));
    var counts := if isDC then e.dcCounts else e.acCounts;
    UsesExpected(log, isDC, tbls);
    EncoderWaiting(e, did);
    NoTableIsGood();
    NoneMade(log, isDC, did, t.ts, t.cs);
    for i := 0 to |tbls|
      invariant Made(log, isDC, did, t.ts, t.cs) && Waiting(log, isDC, did, counts) && |did| == NUM_HUFF_TBLS
      invariant forall j :: 0 <= j < i ==> did[tbls[j]]
      invariant log == old(e.All())
    {
      var ts, cs;
      ok, did, ts, cs := MakeOnce(isDC, tbls[i], counts, did, t.ts, t.cs, log);
      if !ok {
        return;
      }
      t := Tabs(ts, cs);
    }
    ok := true;
    AllMade(log, isDC, tbls, did, t);
    NoneOfThemTooLong(log, isDC, tbls, did, t);
  }

  lemma UsesExpected(log: seq<Token>, isDC: bool, tbls: seq<nat>)
    requires Uses(log, isDC, tbls)
    ensures Expected(log)
  {
  }

  lemma EncoderWaiting(e: P.ProgEncoder, did: seq<bool>)
    requires e.Sound() && e.gather && |did| == NUM_HUFF_TBLS
    ensures Waiting(e.All(), true, did, e.dcCounts) && Waiting(e.All(), false, did, e.acCounts)
    ensures |e.dcCounts| == |e.acCounts| == NUM_HUFF_TBLS
    ensures forall i, j ::
        0 <= i < j < NUM_HUFF_TBLS ==> e.dcCounts[i] != e.dcCounts[j] && e.acCounts[i] != e.acCounts[j]
  {
    hide Tallied;
  }

  lemma NoneOfThemTooLong(log: seq<Token>, isDC: bool, tbls: seq<nat>, did: seq<bool>, t: Tabs)
    requires Made(log, isDC, did, t.ts, t.cs)
    requires forall j :: 0 <= j < |tbls| ==> tbls[j] < NUM_HUFF_TBLS && |did| == NUM_HUFF_TBLS && did[tbls[j]]
    ensures !AnyTooLong(log, isDC, tbls)
  {
    hide Paired, GoodCTbl, EncoderAccepts, NoMissing, Shortest, CodeTooLong;
  }

  lemma AllMade(log: seq<Token>, isDC: bool, tbls: seq<nat>, did: seq<bool>, t: Tabs)
    requires Made(log, isDC, did, t.ts, t.cs) && TokensOk(log) && Uses(log, isDC, tbls)
    requires forall j :: 0 <= j < |tbls| ==> tbls[j] < NUM_HUFF_TBLS && |did| == NUM_HUFF_TBLS && did[tbls[j]]
    ensures MadeFor(isDC, tbls, t) && TokensCoded(CodesOf(isDC, t), log)
    ensures forall i :: 0 <= i < |tbls| ==> Shortest(log, t.cs[tbls[i]], isDC, tbls[i])
  {
    hide Paired, GoodCTbl, EncoderAccepts, Shortest;
    NoTableIsGood();
    forall i | 0 <= i < |log| ensures TokenCoded(CodesOf(isDC, t), log[i]) {
      var tok := log[i];
      assert tok in log && TokenOk(tok);
      if tok.Sym? {
        var j :| 0 <= j < |tbls| && tbls[j] == tok.tbl;
        assert NoMissing(log, t.cs[tok.tbl], isDC, tok.tbl);
      }
    }
  }
}
