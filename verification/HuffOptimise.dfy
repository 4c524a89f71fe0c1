// Two-pass coding: tables built from the statistics of a scan never lack a code for
// a symbol of that scan.
module HuffOptimise {
  import opened Bytes
  import opened Kraft
  import opened HuffSpace
  import opened HuffTree
  import HuffMerges
  import opened HuffGen
  import opened HuffCode
  import opened HuffShortest
  import opened HuffDerived
  import opened HuffTokens
  import opened HuffBlock
  import opened HuffSeqEncoder
  import opened HuffSeqGather
  import opened HuffSegments
  import opened HuffSeqScan

  // ---- Counts are within the limits of the table builder ------------------------------------------------------

  lemma {:induction false} TallySum(counts: seq<nat>, log: seq<Token>, isDC: bool, tbl: nat)
    requires Tallied(counts, log, isDC, tbl) && TokensOk(log)
    ensures Sum(counts) <= |log| && counts[PSEUDO] == 0
    decreases |log|
  {
    hide TokenOk;
    if log == [] {
      SumZero(counts);
    } else {
      var tok, before := log[|log| - 1], log[..|log| - 1];
      assert TokenOk(tok);
      if tok.Sym? && tok.isDC == isDC && tok.tbl == tbl {
        SymbolBelow(tok);
        CountSnoc(before, tok, isDC, tbl, tok.sym);
        assert before + [tok] == log;
        var fewer := counts[tok.sym := counts[tok.sym] - 1];
        SumUpdate(counts, tok.sym, counts[tok.sym] - 1);
        TallySum(fewer, before, isDC, tbl);
      } else {
        TallySum(counts, before, isDC, tbl);
      }
    }
  }

  lemma SymbolBelow(tok: Token)
    requires TokenOk(tok) && tok.Sym?
    ensures tok.sym < REAL
  {
  }

  lemma {:induction false} TwoUnused(size: seq<nat>, i: nat, j: nat)
    requires i < j < |size| && size[i] == 0 && size[j] == 0
    ensures Used(size) <= |size| - 2
  {
    var n := |size| - 1;
    if j < n {
      TwoUnused(size[..n], i, j);
    } else {
      OneUnused(size[..n], i);
    }
  }

  lemma {:induction false} OneUnused(size: seq<nat>, i: nat)
    requires i < |size| && size[i] == 0
    ensures Used(size) <= |size| - 1
  {
    if i < |size| - 1 { OneUnused(size[..|size| - 1], i); }
  }

  // The symbols that a scan can need from one table.
  predicate Expected(log: seq<Token>) {
    forall tok <- log :: tok.Sym? ==> DcSymbol(tok, tok.tbl) || AcSymbol(tok, tok.tbl)
  }

  lemma AtMost254(counts: seq<nat>, log: seq<Token>, isDC: bool, tbl: nat)
    requires Tallied(counts, log, isDC, tbl) && Expected(log)
    ensures Used(counts[..REAL]) <= 254
  {
    hide Used, CountOf;
    CountedIfPresent(log, isDC, tbl, 13);
    CountedIfPresent(log, isDC, tbl, 14);
    assert counts[..REAL][13] == 0 && counts[..REAL][14] == 0;
    TwoUnused(counts[..REAL], 13, 14);
  }

  // ---- One table ------------------------------------------------------------------------------------------------

  predicate NoMissing(log: seq<Token>, c: CTbl, isDC: bool, tbl: nat) {
    |c.ehufsi| == REAL && forall tok <- log ::
        tok.Sym? && tok.isDC == isDC && tok.tbl == tbl ==> tok.sym < REAL && c.ehufsi[tok.sym] > 0
  }

  // The counts of the symbols that a scan has of one table, and the pseudo-symbol.
  function Statistics(log: seq<Token>, isDC: bool, tbl: nat): (w: seq<nat>)
    ensures |w| == SYMBOLS && w[PSEUDO] == 1
    ensures forall s :: 0 <= s < REAL ==> w[s] == CountOf(log, isDC, tbl, s)
  {
    seq(SYMBOLS, s requires 0 <= s < SYMBOLS => if s == PSEUDO then 1 else CountOf(log, isDC, tbl, s))
  }

  // The code lengths for them go beyond 32 bits.
  predicate CodeTooLong(log: seq<Token>, isDC: bool, tbl: nat) {
    TooLong(HuffMerges.CodeSizes(Statistics(log, isDC, tbl)))
  }

  // None of the code lengths for them needs to be limited.
  predicate AllShort(log: seq<Token>, isDC: bool, tbl: nat) {
    Short(HuffMerges.CodeSizes(Statistics(log, isDC, tbl)))
  }

  // The codes for the symbols of the scan are as short as those of an optimal code,
  // unless that has codes of more than 16 bits.
  predicate Shortest(log: seq<Token>, c: CTbl, isDC: bool, tbl: nat) {
    && |c.ehufsi| == REAL
    && (AllShort(log, isDC, tbl) ==>
          forall v :: 0 <= v < REAL && Statistics(log, isDC, tbl)[v] > 0 ==>
            v < |HuffMerges.CodeSizes(Statistics(log, isDC, tbl))|
            && c.ehufsi[v] <= HuffMerges.CodeSizes(Statistics(log, isDC, tbl))[v])
  }

  // The bits that the codes of one table take for the symbols of a scan.
  function CodeBits(log: seq<Token>, c: CTbl, isDC: bool, tbl: nat): nat {
    if log == [] then 0
    else
      var tok := log[|log| - 1];
      CodeBits(log[..|log| - 1], c, isDC, tbl)
      + if tok.Sym? && tok.isDC == isDC && tok.tbl == tbl && tok.sym < |c.ehufsi| then c.ehufsi[tok.sym] else 0
  }

  lemma {:induction false} CodeBitsAreCost(log: seq<Token>, c: CTbl, isDC: bool, tbl: nat)
    requires TokensOk(log) && |c.ehufsi| == REAL
    ensures CodeBits(log, c, isDC, tbl) == Cost(Statistics(log, isDC, tbl)[..REAL], c.ehufsi)
    decreases |log|
  {
    hide Cost, TokenOk, CountOf;
    var w := Statistics(log, isDC, tbl)[..REAL];
    if log == [] {
      NothingCounted(w, c.ehufsi, isDC, tbl);
    } else {
      var tok, before := log[|log| - 1], log[..|log| - 1];
      CodeBitsAreCost(before, c, isDC, tbl);
      var v := Statistics(before, isDC, tbl)[..REAL];
      assert before + [tok] == log && TokenOk(tok);
      forall s: nat | s < REAL
        ensures w[s] == v[s] + if tok.Sym? && tok.isDC == isDC && tok.tbl == tbl && tok.sym == s then 1 else 0 {
        CountSnoc(before, tok, isDC, tbl, s);
      }
      if tok.Sym? && tok.isDC == isDC && tok.tbl == tbl {
        SymbolBelow(tok);
        assert w == v[tok.sym := v[tok.sym] + 1];
        CostUpdate(v, c.ehufsi, tok.sym, v[tok.sym] + 1, c.ehufsi[tok.sym]);
        assert c.ehufsi[tok.sym := c.ehufsi[tok.sym]] == c.ehufsi;
      } else {
        assert w == v;
      }
    }
  }

  lemma NothingCounted(w: seq<nat>, len: seq<nat>, isDC: bool, tbl: nat)
    requires w == Statistics([], isDC, tbl)[..REAL] && |len| == REAL
    ensures Cost(w, len) == 0
  {
    SumZero(Prods(w, len));
  }

  // Then no prefix code spends fewer bits on the symbols of the scan and the pseudo-symbol
  // than the table does on the symbols of the scan.
  lemma ShortestIsCheapest(log: seq<Token>, c: CTbl, isDC: bool, tbl: nat, codes: seq<seq<bool>>)
    requires TokensOk(log) && Shortest(log, c, isDC, tbl) && AllShort(log, isDC, tbl)
    requires PrefixFree(Statistics(log, isDC, tbl), codes)
    ensures CodeBits(log, c, isDC, tbl) <= Cost(Statistics(log, isDC, tbl), Lengths(codes))
  {
    hide Cost, Optimal, PrefixFree, Lengths, CountOf, HuffMerges.CodeSizes;
    var w := Statistics(log, isDC, tbl);
    SizesAreOptimal(w, PSEUDO);
    CodeBitsAreCost(log, c, isDC, tbl);
    NoPrefixCodeIsCheaper(w, HuffMerges.CodeSizes(w), c.ehufsi, codes);
  }

  // A scan with fewer than 9227464 symbols has no such table.
  lemma FewSymbolsFit(log: seq<Token>, isDC: bool, tbl: nat)
    requires TokensOk(log) && |log| + 1 < HuffMerges.FIB35
    ensures !CodeTooLong(log, isDC, tbl)
  {
    hide Sum, CountOf, TooLong, HuffMerges.CodeSizes;
    var w := Statistics(log, isDC, tbl);
    var counts: seq<nat> := seq(SYMBOLS, s requires 0 <= s < SYMBOLS => CountOf(log, isDC, tbl, s));
    TallySum(counts, log, isDC, tbl);
    SumUpdate(counts, PSEUDO, 1);
    assert w == counts[PSEUDO := 1];
    FewCountsFit(w);
  }

  lemma NoneIsMissing(isDC: bool, log: seq<Token>, tbl: nat, w: seq<nat>, size: seq<nat>, t: HuffTbl, c: CTbl)
    requires Built(w, size, t) && EncoderAccepts(isDC, t) && EncodesWith(t, c) && TokensOk(log)
    requires forall v :: 0 <= v < REAL && w[v] > 0 ==> v in t.huffval[..Sum(t.bits)]
    requires forall s :: 0 <= s < REAL ==> w[s] == CountOf(log, isDC, tbl, s)
    ensures NoMissing(log, c, isDC, tbl)
  {
    hide Sum, LeavesOnesFree, Used, CountOf, Listed, EncodesWith, EncoderAccepts, TokenOk;
    CodesCover(t, c);
    forall tok <- log | tok.Sym? && tok.isDC == isDC && tok.tbl == tbl ensures tok.sym < REAL && c.ehufsi[tok.sym] > 0 {
      var i :| 0 <= i < |log| && log[i] == tok;
      assert TokenOk(log[i]);
      SymbolBelow(tok);
      CountedIfPresent(log, isDC, tbl, tok.sym);
      AcceptedCounts(isDC, t);
      ListedHaveCodes(t, c, tok.sym);
    }
  }

  lemma CodesCover(t: HuffTbl, c: CTbl)
    requires EncodesWith(t, c)
    ensures |c.ehufsi| == REAL
  {
  }

  lemma AcceptedCounts(isDC: bool, t: HuffTbl)
    requires EncoderAccepts(isDC, t)
    ensures GoodCounts(t.bits)
  {
  }

  // jpeg_gen_optimal_table and then jpeg_make_c_derived_tbl on the counters of one table.
  method OptimalTable(isDC: bool, counts: array<nat>, ghost log: seq<Token>, ghost tbl: nat)
      returns (r: Result<HuffTbl>, c: CTbl)
    requires Tallied(counts[..], log, isDC, tbl) && TokensOk(log) && Expected(log) && |log| < MAX_COUNT
    requires exists s :: 0 <= s < REAL && Sym(isDC, tbl, s) in log
    modifies counts
    ensures r.Err? <==> CodeTooLong(log, isDC, tbl)
    ensures r.Ok? ==> Paired(r.value, c) && EncoderAccepts(isDC, r.value)
    ensures r.Ok? ==> NoMissing(log, c, isDC, tbl) && Shortest(log, c, isDC, tbl)
  {
    hide Sum, Used, CountOf, Built, Optimal, TooLong, HuffMerges.CodeSizes, GoodCounts, EncodesWith, NoMissing,
        Expected, TokenOk, EncoderAccepts, CountsFrom, Shortest;
    ghost var before := counts[..];
    ghost var w := before[PSEUDO := 1];
    TallySum(before, log, isDC, tbl);
    SumUpdate(before, PSEUDO, 1);
    AtMost254(before, log, isDC, tbl);
    assert counts[..REAL] == before[..REAL];
    ghost var s :| 0 <= s < REAL && Sym(isDC, tbl, s) in log;
    CountedIfPresent(log, isDC, tbl, s);
    ghost var size;
    assert w == Statistics(log, isDC, tbl) by { assert before[PSEUDO] == 0; }
    r, size := GenOptimalTable(counts);
    c := CTbl([], []);
    if r.Err? {
      return;
    }
    DcSymbolsSmall(before, w, log, isDC, tbl);
    BuiltIsAccepted(isDC, w, size, r.value);
    AcceptedCounts(isDC, r.value);
    var made := MakeCDerivedTbl(isDC, r.value);
    c := made.value;
    NoneIsMissing(isDC, log, tbl, w, size, r.value, c);
    IsShortest(isDC, log, tbl, size, r.value, c);
  }

  lemma IsShortest(isDC: bool, log: seq<Token>, tbl: nat, size: seq<nat>, t: HuffTbl, c: CTbl)
    requires var w := Statistics(log, isDC, tbl); size == HuffMerges.CodeSizes(w) && Built(w, size, t)
    requires CountsFrom(size, t.bits) && EncodesWith(t, c)
    ensures Shortest(log, c, isDC, tbl)
  {
    hide Built, Optimal, CountsFrom, Short, CountOf, HuffMerges.CodeSizes, Assigned;
    if AllShort(log, isDC, tbl) {
      forall v | 0 <= v < REAL && Statistics(log, isDC, tbl)[v] > 0 ensures v < |size| && c.ehufsi[v] <= size[v] {
        if c.ehufsi[v] > 0 {
          var l: nat, i: nat :| Assigned(t, v, l, i);
          NoLongerThanOptimal(Statistics(log, isDC, tbl), size, t, v, l, i);
        }
      }
    }
  }

  lemma DcSymbolsSmall(counts: seq<nat>, w: seq<nat>, log: seq<Token>, isDC: bool, tbl: nat)
    requires Tallied(counts, log, isDC, tbl) && Expected(log) && w == counts[PSEUDO := 1]
    ensures forall s :: 0 <= s < REAL && w[s] > 0 ==> s <= MaxSymbol(isDC)
  {
    hide CountOf;
    forall s | 0 <= s < REAL && w[s] > 0 ensures s <= MaxSymbol(isDC) {
      CountedIfPresent(log, isDC, tbl, s);
    }
  }

  // ---- What symbols a scan has -------------------------------------------------------------------------------------

  // A symbol of one of the tables that the components of the scan use.
  predicate FromScan(s: Scan, tok: Token) {
    tok.Sym? ==>
      exists ci :: 0 <= ci < |s.comps|
          && (DcSymbol(tok, s.comps[ci].dcTbl) || (s.se > 0 && AcSymbol(tok, s.comps[ci].acTbl)))
  }

  lemma BlockFromScan(s: Scan, mcu: seq<seq<int>>, i: nat, lastDc: int)
    requires GoodScan(s) && GoodMcu(s, mcu) && i < |mcu| && InRange(BandOf(s, mcu, i), lastDc)
    ensures forall tok <- BlockTokens(CompOf(s, i).dcTbl, CompOf(s, i).acTbl, BandOf(s, mcu, i), lastDc) ::
        FromScan(s, tok)
  {
    hide DcSymbol, AcSymbol, InRange;
    var c, z := CompOf(s, i), BandOf(s, mcu, i);
    BlockSymbols(c.dcTbl, c.acTbl, z, lastDc);
    if s.se == 0 {
      InRangeMeans(z, lastDc);
      assert AcTokens(c.acTbl, z, 1, 0) == [];
      BlockIsDc(c.dcTbl, c.acTbl, z, lastDc);
    }
    assert s.comps[s.membership[i]] == c;
  }

  lemma InRangeMeans(z: seq<int>, lastDc: int)
    requires InRange(z, lastDc)
    ensures |z| > 0 && AllInRange(z) && DcInRange(z[0] - lastDc)
  {
  }

  lemma BlockIsDc(dcTbl: nat, acTbl: nat, z: seq<int>, lastDc: int)
    requires dcTbl < NUM_HUFF_TBLS && acTbl < NUM_HUFF_TBLS && InRange(z, lastDc) && |z| == 1
    ensures forall tok <- BlockTokens(dcTbl, acTbl, z, lastDc) :: tok.Sym? ==> DcSymbol(tok, dcTbl)
  {
  }

  lemma {:induction false} McuFromScan(s: Scan, last: seq<int>, mcu: seq<seq<int>>, i: nat)
    requires GoodScan(s) && GoodMcu(s, mcu) && |last| == |s.comps| && McuInRange(s, last, mcu, i)
    ensures forall tok <- McuTokens(s, last, mcu, i) :: FromScan(s, tok)
    decreases |mcu| - i
  {
    hide FromScan, InRange, BlockTokens;
    if i < |mcu| {
      BlockFromScan(s, mcu, i, last[s.membership[i]]);
      McuFromScan(s, last[s.membership[i] := mcu[i][0]], mcu, i + 1);
    }
  }

  lemma {:induction false} AllFromScan(s: Scan, last: seq<int>, toGo: nat, mcus: seq<seq<seq<int>>>)
    requires GoodScan(s) && GoodMcus(s, mcus) && |last| == |s.comps| && ScanInRange(s, last, toGo, mcus)
    ensures forall tok <- ScanTokens(s, last, toGo, mcus) :: FromScan(s, tok)
    decreases |mcus|
  {
    hide FromScan, McuInRange, McuTokens, LastAfter;
    if mcus != [] {
      var p := Predictions(s, last, toGo);
      McuFromScan(s, p, mcus[0], 0);
      AllFromScan(s, LastAfter(s, p, mcus[0], 0), ToGoAfter(s, toGo), mcus[1..]);
    }
  }

  predicate Has(toks: seq<Token>, isDC: bool, tbl: nat) {
    exists s :: 0 <= s < REAL && Sym(isDC, tbl, s) in toks
  }

  lemma HasMore(a: seq<Token>, b: seq<Token>, isDC: bool, tbl: nat)
    requires Has(a, isDC, tbl) || Has(b, isDC, tbl)
    ensures Has(a + b, isDC, tbl)
  {
    if Has(a, isDC, tbl) {
      var s :| 0 <= s < REAL && Sym(isDC, tbl, s) in a;
      assert Sym(isDC, tbl, s) in a + b;
    } else {
      var s :| 0 <= s < REAL && Sym(isDC, tbl, s) in b;
      assert Sym(isDC, tbl, s) in a + b;
    }
  }

  lemma FirstHas(toks: seq<Token>, isDC: bool, tbl: nat)
    requires toks != [] && toks[0].Sym? && toks[0].isDC == isDC && toks[0].tbl == tbl && TokenOk(toks[0])
    ensures Has(toks, isDC, tbl)
  {
    assert Sym(isDC, tbl, toks[0].sym) in toks;
  }

  lemma {:induction false} AcHas(tbl: nat, z: seq<int>, k: nat, r: nat)
    requires tbl < NUM_HUFF_TBLS && AllInRange(z) && 1 <= k && (k < |z| || r > 0)
    ensures Has(AcTokens(tbl, z, k, r), false, tbl)
    decreases |z| - k
  {
    hide Has;
    if k >= |z| {
      FirstHas([Sym(false, tbl, 0)], false, tbl);
    } else if z[k] == 0 {
      AcHas(tbl, z, k + 1, r + 1);
    } else {
      FirstHas(NonzeroTokens(tbl, r, z[k]), false, tbl);
      HasMore(NonzeroTokens(tbl, r, z[k]), AcTokens(tbl, z, k + 1, 0), false, tbl);
    }
  }

  lemma BlockHas(dcTbl: nat, acTbl: nat, z: seq<int>, lastDc: int)
    requires dcTbl < NUM_HUFF_TBLS && acTbl < NUM_HUFF_TBLS && InRange(z, lastDc)
    ensures Has(BlockTokens(dcTbl, acTbl, z, lastDc), true, dcTbl)
    ensures |z| > 1 ==> Has(BlockTokens(dcTbl, acTbl, z, lastDc), false, acTbl)
  {
    hide Has;
    var dc, ac := DcTokens(dcTbl, z[0] - lastDc), AcTokens(acTbl, z, 1, 0);
    FirstHas(dc, true, dcTbl);
    HasMore(dc, ac, true, dcTbl);
    if |z| > 1 {
      AcHas(acTbl, z, 1, 0);
      HasMore(dc, ac, false, acTbl);
    }
  }

  // Every block of an MCU uses its component's tables.
  lemma {:induction false} McuHas(s: Scan, last: seq<int>, mcu: seq<seq<int>>, i: nat, j: nat)
    requires GoodScan(s) && GoodMcu(s, mcu) && |last| == |s.comps| && McuInRange(s, last, mcu, i) && i <= j < |mcu|
    ensures Has(McuTokens(s, last, mcu, i), true, CompOf(s, j).dcTbl)
    ensures s.se > 0 ==> Has(McuTokens(s, last, mcu, i), false, CompOf(s, j).acTbl)
    decreases |mcu| - i
  {
    hide Has, InRange, BlockTokens;
    var c, z, p, next := CompOf(s, i), BandOf(s, mcu, i), last[s.membership[i]], last[s.membership[i] := mcu[i][0]];
    var a, b := BlockTokens(c.dcTbl, c.acTbl, z, p), McuTokens(s, next, mcu, i + 1);
    if i == j {
      BlockHas(c.dcTbl, c.acTbl, z, p);
    } else {
      McuHas(s, next, mcu, i + 1, j);
    }
    HasMore(a, b, true, CompOf(s, j).dcTbl);
    if s.se > 0 { HasMore(a, b, false, CompOf(s, j).acTbl); }
  }

  // Every component has a block in an MCU.
  predicate Covers(s: Scan) {
    forall ci :: 0 <= ci < |s.comps| ==> ci in s.membership
  }

  predicate AllUsed(s: Scan, log: seq<Token>) {
    forall ci :: 0 <= ci < |s.comps| ==>
        Has(log, true, s.comps[ci].dcTbl)
        && (s.se > 0 ==> Has(log, false, s.comps[ci].acTbl))
  }

  lemma ScanUsesAll(s: Scan, last: seq<int>, toGo: nat, mcus: seq<seq<seq<int>>>)
    requires GoodScan(s) && GoodMcus(s, mcus) && |last| == |s.comps| && ScanInRange(s, last, toGo, mcus)
    requires Covers(s) && mcus != []
    ensures AllUsed(s, ScanTokens(s, last, toGo, mcus))
  {
    hide Has, McuInRange, McuTokens, LastAfter;
    var p := Predictions(s, last, toGo);
    assert forall ci :: 0 <= ci < |s.comps| ==> ci in s.membership;
    var a, b := McuTokens(s, p, mcus[0], 0), ScanTokens(s, LastAfter(s, p, mcus[0], 0), ToGoAfter(s, toGo), mcus[1..]);
    forall ci | 0 <= ci < |s.comps|
      ensures Has(a + b, true, s.comps[ci].dcTbl) && (s.se > 0 ==> Has(a + b, false, s.comps[ci].acTbl))
    {
      var c: nat := ci;
      assert c in s.membership;
      var j :| 0 <= j < |s.membership| && s.membership[j] == c;
      McuHas(s, p, mcus[0], 0, j);
      HasMore(a, b, true, s.comps[ci].dcTbl);
      if s.se > 0 { HasMore(a, b, false, s.comps[ci].acTbl); }
    }
  }

  // ---- finish_pass_gather ------------------------------------------------------------------------------------------

  // The tables made so far have a code for each of their symbols.
  ghost predicate Made(log: seq<Token>, isDC: bool, did: seq<bool>, ts: seq<HuffTbl>, cs: seq<CTbl>) {
    && |did| == |ts| == |cs| == NUM_HUFF_TBLS
    && (forall i :: 0 <= i < NUM_HUFF_TBLS ==> GoodCTbl(cs[i]))
    && (forall i :: 0 <= i < NUM_HUFF_TBLS && did[i] ==>
          Paired(ts[i], cs[i]) && EncoderAccepts(isDC, ts[i]) && NoMissing(log, cs[i], isDC, i)
              && Shortest(log, cs[i], isDC, i) && !CodeTooLong(log, isDC, i))
  }

  const NO_TABLE := CTbl(seq(REAL, _ => 0), seq(REAL, _ => 0))

  lemma MadeOne(log: seq<Token>, isDC: bool, did: seq<bool>, ts: seq<HuffTbl>, cs: seq<CTbl>, tbl: nat, t: HuffTbl,
      c: CTbl)
    requires Made(log, isDC, did, ts, cs) && tbl < NUM_HUFF_TBLS && Paired(t, c) && EncoderAccepts(isDC, t)
        && NoMissing(log, c, isDC, tbl)
    requires Shortest(log, c, isDC, tbl) && !CodeTooLong(log, isDC, tbl)
    ensures Made(log, isDC, did[tbl := true], ts[tbl := t], cs[tbl := c])
  {
    hide Paired, NoMissing, Shortest, GoodCTbl, EncoderAccepts, CodeTooLong;
    PairedIsGood(t, c);
  }

  // The counters of the tables that have not been made yet still hold the statistics.
  predicate Waiting(log: seq<Token>, isDC: bool, did: seq<bool>, counts: seq<array<nat>>)
    reads counts
  {
    && |did| == |counts| == NUM_HUFF_TBLS
    && forall i :: 0 <= i < NUM_HUFF_TBLS && !did[i] ==> Tallied(counts[i][..], log, isDC, i)
  }

  // Makes the table with number tbl unless that has been done: the builder destroys
  // the counts, so it must not be used twice.
  method MakeOnce(isDC: bool, tbl: nat, counts: seq<array<nat>>, did: seq<bool>, ts: seq<HuffTbl>, cs: seq<CTbl>,
      ghost log: seq<Token>)
    returns (ok: bool, did': seq<bool>, ts': seq<HuffTbl>, cs': seq<CTbl>)
    requires tbl < NUM_HUFF_TBLS && |counts| == NUM_HUFF_TBLS
    requires forall i, j :: 0 <= i < j < NUM_HUFF_TBLS ==> counts[i] != counts[j]
    requires Waiting(log, isDC, did, counts) && Made(log, isDC, did, ts, cs)
    requires TokensOk(log) && Expected(log) && |log| < MAX_COUNT && Has(log, isDC, tbl)
    modifies counts
    ensures !ok ==> CodeTooLong(log, isDC, tbl)
    ensures ok ==>
        |did| == NUM_HUFF_TBLS && Waiting(log, isDC, did', counts) && Made(log, isDC, did', ts', cs')
        && did' == did[tbl := true]
  {
    hide Made, Tallied, CodeTooLong, Paired, NoMissing, Shortest, Expected, TokenOk, EncoderAccepts;
    MadeLengths(log, isDC, did, ts, cs);
    ok, did', ts', cs' := true, did, ts, cs;
    if did[tbl] {
      assert did == did[tbl := true];
      return;
    }
    var r, c := OptimalTable(isDC, counts[tbl], log, tbl);
    if r.Err? {
      return false, did, ts, cs;
    }
    MadeOne(log, isDC, did, ts, cs, tbl, r.value, c);
    did', ts', cs' := did[tbl := true], ts[tbl := r.value], cs[tbl := c];
  }

  lemma MadeLengths(log: seq<Token>, isDC: bool, did: seq<bool>, ts: seq<HuffTbl>, cs: seq<CTbl>)
    requires Made(log, isDC, did, ts, cs)
    ensures |did| == |ts| == |cs| == NUM_HUFF_TBLS
  {
  }

  datatype TableSet = TableSet(dcT: seq<HuffTbl>, acT: seq<HuffTbl>, codes: Tables)

  // The tables that a scan uses, each with the encoder's codes for it.
  ghost predicate PairedFor(s: Scan, ts: TableSet)
    requires GoodScan(s)
  {
    && GoodTables(ts.codes) && |ts.dcT| == |ts.acT| == NUM_HUFF_TBLS
    && forall ci :: 0 <= ci < |s.comps| ==>
         && Paired(ts.dcT[s.comps[ci].dcTbl], ts.codes.dc[s.comps[ci].dcTbl])
         && EncoderAccepts(true, ts.dcT[s.comps[ci].dcTbl])
         && (s.se > 0 ==>
             Paired(ts.acT[s.comps[ci].acTbl], ts.codes.ac[s.comps[ci].acTbl])
             && EncoderAccepts(false, ts.acT[s.comps[ci].acTbl]))
  }

  // All tables that the components up to n use have been made.
  predicate DoneUpTo(s: Scan, n: nat, didDc: seq<bool>, didAc: seq<bool>)
    requires GoodScan(s) && |didDc| == |didAc| == NUM_HUFF_TBLS && n <= |s.comps|
  {
    forall ci :: 0 <= ci < n ==> didDc[s.comps[ci].dcTbl] && (s.se > 0 ==> didAc[s.comps[ci].acTbl])
  }

  // One of the tables that the scan uses.
  predicate SomeTableTooLong(s: Scan, log: seq<Token>) {
    exists ci :: 0 <= ci < |s.comps|
        && (CodeTooLong(log, true, s.comps[ci].dcTbl) || (s.se > 0 && CodeTooLong(log, false, s.comps[ci].acTbl)))
  }

  lemma FewNeverTooLong(s: Scan, log: seq<Token>)
    requires TokensOk(log) && |log| + 1 < HuffMerges.FIB35
    ensures !SomeTableTooLong(s, log)
  {
    hide CodeTooLong;
    forall ci | 0 <= ci < |s.comps| ensures !CodeTooLong(log, true, s.comps[ci].dcTbl)
        && !CodeTooLong(log, false, s.comps[ci].acTbl) {
      FewSymbolsFit(log, true, s.comps[ci].dcTbl);
      FewSymbolsFit(log, false, s.comps[ci].acTbl);
    }
  }

  lemma NoneTooLong(s: Scan, log: seq<Token>, didDc: seq<bool>, didAc: seq<bool>, ts: TableSet)
    requires GoodScan(s) && Made(log, true, didDc, ts.dcT, ts.codes.dc) && Made(log, false, didAc, ts.acT, ts.codes.ac)
    requires |didDc| == |didAc| == NUM_HUFF_TBLS && DoneUpTo(s, |s.comps|, didDc, didAc)
    ensures !SomeTableTooLong(s, log)
  {
    hide Paired, GoodCTbl, EncoderAccepts, NoMissing, Shortest, CodeTooLong;
  }

  // Every table that the scan uses is as short as an optimal one.
  predicate EachShortest(s: Scan, log: seq<Token>, ts: TableSet)
    requires GoodScan(s) && |ts.codes.dc| == |ts.codes.ac| == NUM_HUFF_TBLS
  {
    forall ci :: 0 <= ci < |s.comps| ==>
      && Shortest(log, ts.codes.dc[s.comps[ci].dcTbl], true, s.comps[ci].dcTbl)
      && (s.se > 0 ==> Shortest(log, ts.codes.ac[s.comps[ci].acTbl], false, s.comps[ci].acTbl))
  }

  lemma AllShortest(s: Scan, log: seq<Token>, didDc: seq<bool>, didAc: seq<bool>, ts: TableSet)
    requires GoodScan(s) && Made(log, true, didDc, ts.dcT, ts.codes.dc) && Made(log, false, didAc, ts.acT, ts.codes.ac)
    requires |didDc| == |didAc| == NUM_HUFF_TBLS && DoneUpTo(s, |s.comps|, didDc, didAc)
    ensures |ts.codes.dc| == |ts.codes.ac| == NUM_HUFF_TBLS && EachShortest(s, log, ts)
  {
    hide Paired, GoodCTbl, EncoderAccepts, NoMissing, Shortest, CodeTooLong;
  }

  lemma AllCoded(s: Scan, log: seq<Token>, didDc: seq<bool>, didAc: seq<bool>, ts: TableSet)
    requires GoodScan(s) && Made(log, true, didDc, ts.dcT, ts.codes.dc) && Made(log, false, didAc, ts.acT, ts.codes.ac)
    requires |didDc| == |didAc| == NUM_HUFF_TBLS && DoneUpTo(s, |s.comps|, didDc, didAc)
    requires TokensOk(log) && forall tok <- log :: FromScan(s, tok)
    ensures PairedFor(s, ts) && TokensCoded(ts.codes, log)
  {
    hide Paired, GoodCTbl, EncoderAccepts, Shortest;
    forall i | 0 <= i < |log| ensures TokenCoded(ts.codes, log[i]) {
      var tok := log[i];
      assert FromScan(s, tok) && TokenOk(tok);
      if tok.Sym? {
        var ci :| 0 <= ci < |s.comps|
            && (DcSymbol(tok, s.comps[ci].dcTbl) || (s.se > 0 && AcSymbol(tok, s.comps[ci].acTbl)));
        assert NoMissing(log, TableOf(ts.codes, tok.isDC, tok.tbl), tok.isDC, tok.tbl);
      }
    }
  }

  method FinishPassGather(g: HuffGather) returns (ok: bool, ts: TableSet)
    requires g.Valid() && TokensOk(g.log) && |g.log| < MAX_COUNT && AllUsed(g.scan, g.log)
    requires forall tok <- g.log :: FromScan(g.scan, tok)
    modifies g.dcCounts, g.acCounts
    ensures !ok <==> SomeTableTooLong(g.scan, old(g.log))
    ensures ok ==> PairedFor(g.scan, ts) && TokensCoded(ts.codes, g.log) && EachShortest(g.scan, g.log, ts)
  {
    hide Made, Tallied, CodeTooLong, Paired, NoMissing, Expected, TokenOk, TokensCoded, FromScan, Has, GoodCTbl,
        Waiting, EncoderAccepts, EachShortest;
    var s := g.scan;
    ghost var log := g.log;
    var didDc, didAc := seq(NUM_HUFF_TBLS, _ => false), seq(NUM_HUFF_TBLS, _ => false);
    var none := HuffTbl([], []);
    var dcT, acT := seq(NUM_HUFF_TBLS, _ => none), seq(NUM_HUFF_TBLS, _ => none);
    var dc, ac := seq(NUM_HUFF_TBLS, _ => NO_TABLE), seq(NUM_HUFF_TBLS, _ => NO_TABLE);
    ExpectedOf(s, log);
    AllWaiting(g, didDc);
    NoneMade(log, true, didDc, dcT, dc);
    NoneMade(log, false, didAc, acT, ac);
    for ci := 0 to |s.comps|
      invariant Made(log, true, didDc, dcT, dc) && Made(log, false, didAc, acT, ac)
      invariant Waiting(log, true, didDc, g.dcCounts) && Waiting(log, false, didAc, g.acCounts)
      invariant |didDc| == |didAc| == NUM_HUFF_TBLS && DoneUpTo(s, ci, didDc, didAc)
    {
      ok, didDc, dcT, dc := MakeOnce(true, s.comps[ci].dcTbl, g.dcCounts, didDc, dcT, dc, log);
      if !ok {
        return false, TableSet(dcT, acT, Tables(dc, ac));
      }
      if s.se != 0 {
        ok, didAc, acT, ac := MakeOnce(false, s.comps[ci].acTbl, g.acCounts, didAc, acT, ac, log);
        if !ok {
          return false, TableSet(dcT, acT, Tables(dc, ac));
        }
      }
    }
    ok, ts := true, TableSet(dcT, acT, Tables(dc, ac));
    AllCoded(s, log, didDc, didAc, ts);
    AllShortest(s, log, didDc, didAc, ts);
    NoneTooLong(s, log, didDc, didAc, ts);
  }

  lemma AllWaiting(g: HuffGather, did: seq<bool>)
    requires g.Valid() && |did| == NUM_HUFF_TBLS
    ensures Waiting(g.log, true, did, g.dcCounts) && Waiting(g.log, false, did, g.acCounts)
  {
  }

  lemma NoneMade(log: seq<Token>, isDC: bool, did: seq<bool>, ts: seq<HuffTbl>, cs: seq<CTbl>)
    requires |did| == |ts| == |cs| == NUM_HUFF_TBLS
        && forall i :: 0 <= i < NUM_HUFF_TBLS ==> !did[i] && cs[i] == NO_TABLE
    ensures Made(log, isDC, did, ts, cs)
  {
  }

  lemma ExpectedOf(s: Scan, log: seq<Token>)
    requires forall tok <- log :: FromScan(s, tok)
    ensures Expected(log)
  {
    forall tok <- log | tok.Sym? ensures DcSymbol(tok, tok.tbl) || AcSymbol(tok, tok.tbl) {
      assert FromScan(s, tok);
    }
  }

  // ---- Both passes -------------------------------------------------------------------------------------------------

  datatype Outcome = Written | OutOfRange | TooLongACode | MissingCode

  // Gathers statistics, builds the tables and writes the scan. It never gets stuck
  // for want of a code, and what it writes are the symbols of the scan.
  method TwoPasses(s: Scan, mcus: seq<seq<seq<int>>>, dest: seq<byte>)
    returns (r: Outcome, ts: TableSet, out: seq<byte>, ghost segs: seq<seq<Token>>)
    requires GoodScan(s) && GoodMcus(s, mcus) && Covers(s) && mcus != []
    requires ScanInRange(s, ZeroDc(s), s.interval, mcus) ==> |ScanTokens(s, ZeroDc(s), s.interval, mcus)| < MAX_COUNT
    ensures r != MissingCode
    ensures r == OutOfRange <==> !ScanInRange(s, ZeroDc(s), s.interval, mcus)
    ensures r == TooLongACode <==>
              ScanInRange(s, ZeroDc(s), s.interval, mcus)
                  && SomeTableTooLong(s, ScanTokens(s, ZeroDc(s), s.interval, mcus))
    ensures r == Written ==> PairedFor(s, ts) && Finished(ts.codes, dest, segs, out)
    ensures r == Written ==> EachShortest(s, ScanTokens(s, ZeroDc(s), s.interval, mcus), ts)
    ensures r == Written ==> segs == Segments(s, ZeroDc(s), s.interval, [], mcus)
  {
    hide McuInRange, McuTokens, LastAfter, ScanInRange, ScanTokens, TokensCoded, SomeTableTooLong, FromScan, AllUsed,
        Covers, PairedFor, Finished, EachShortest;
    out, segs := dest, [];
    ts := TableSet([], [], Tables([], []));
    var g := new HuffGather(s);
    var ok := CountMcus(g, mcus);
    if !ok {
      return OutOfRange, ts, out, segs;
    }
    AllFromScan(s, ZeroDc(s), s.interval, mcus);
    ScanUsesAll(s, ZeroDc(s), s.interval, mcus);
    ok, ts := FinishPassGather(g);
    if !ok {
      return TooLongACode, ts, out, segs;
    }
    GoodPaired(s, ts);
    var enc := new HuffEncoder(s, ts.codes, dest);
    ok := EncodeMcus(enc, mcus);
    if !ok {
      return MissingCode, ts, out, segs;
    }
    segs := enc.FinishPass();
    r, out := Written, enc.w.out;
  }

  lemma GoodPaired(s: Scan, ts: TableSet)
    requires GoodScan(s) && PairedFor(s, ts)
    ensures GoodTables(ts.codes)
  {
  }
}
