// htest_one_block of jchuff.c: the statistics pass counts the symbols that the
// output pass is going to write.
module HuffSeqGather {
  import opened Coefs
  import opened ZigzagOrder
  import opened HuffTokens
  import opened HuffBlock
  import opened HuffSeqEncoder

  const COUNTERS := 257

  // The counters of one table after the symbols of toks have been counted.
  predicate Counted(before: seq<nat>, after: seq<nat>, toks: seq<Token>, isDC: bool, tbl: nat) {
    && |before| == |after|
    && forall s :: 0 <= s < |after| ==> after[s] == before[s] + CountOf(toks, isDC, tbl, s)
  }

  lemma CountedMore(a: seq<nat>, b: seq<nat>, c: seq<nat>, x: seq<Token>, y: seq<Token>, isDC: bool, tbl: nat)
    requires Counted(a, b, x, isDC, tbl) && Counted(b, c, y, isDC, tbl)
    ensures Counted(a, c, x + y, isDC, tbl)
  {
    forall s | 0 <= s < |c| ensures c[s] == a[s] + CountOf(x + y, isDC, tbl, s) {
      CountConcat(x, y, isDC, tbl, s);
    }
  }

  // Counting one symbol, or passing over what belongs to no counter here.
  lemma CountedOne(a: seq<nat>, tok: Token, isDC: bool, tbl: nat)
    requires tok.Sym? && tok.isDC == isDC && tok.tbl == tbl ==> tok.sym < |a|
    ensures Counted(a,
                    if tok.Sym? && tok.isDC == isDC && tok.tbl == tbl then a[tok.sym := a[tok.sym] + 1] else a,
                    [tok], isDC, tbl)
  {
    forall s | 0 <= s < |a| ensures CountOf([tok], isDC, tbl, s) == if tok == Sym(isDC, tbl, s) then 1 else 0 {
      CountSnoc([], tok, isDC, tbl, s);
      assert [] + [tok] == [tok];
    }
  }

  lemma CountedNothing(a: seq<nat>, isDC: bool, tbl: nat)
    ensures Counted(a, a, [], isDC, tbl)
  {
  }

  method CountSymbol(counts: array<nat>, sym: nat, ghost isDC: bool, ghost tbl: nat)
    requires sym < counts.Length
    modifies counts
    ensures Counted(old(counts[..]), counts[..], [Sym(isDC, tbl, sym)], isDC, tbl)
  {
    CountedOne(counts[..], Sym(isDC, tbl, sym), isDC, tbl);
    ghost var after := counts[..][sym := counts[sym] + 1];
    counts[sym] := counts[sym] + 1;
    assert counts[..] == after;
  }

  method CountNonzero(acCounts: array<nat>, ghost tbl: nat, r0: nat, v: int, nbits: nat)
    requires acCounts.Length == COUNTERS && tbl < NUM_HUFF_TBLS && v != 0 && AcInRange(v) && nbits == BitLen(Abs(v))
    modifies acCounts
    ensures Counted(old(acCounts[..]), acCounts[..], NonzeroTokens(tbl, r0, v), false, tbl)
  {
    hide Counted;
    var r: nat := r0;
    ghost var did: seq<Token> := [];
    ghost var start := acCounts[..];
    CountedNothing(start, false, tbl);
    while r > 15
      invariant Counted(start, acCounts[..], did, false, tbl)
      invariant did + NonzeroTokens(tbl, r, v) == NonzeroTokens(tbl, r0, v)
    {
      ghost var before, more := acCounts[..], NonzeroTokens(tbl, r - 16, v);
      assert did + ([Sym(false, tbl, ZRL)] + more) == (did + [Sym(false, tbl, ZRL)]) + more;
      CountSymbol(acCounts, ZRL, false, tbl);
      CountedMore(start, before, acCounts[..], did, [Sym(false, tbl, ZRL)], false, tbl);
      did := did + [Sym(false, tbl, ZRL)];
      r := r - 16;
    }
    ghost var before, sym, raw := acCounts[..], Sym(false, tbl, 16 * r + nbits), Raw(Extra(v), nbits);
    CountSymbol(acCounts, 16 * r + nbits, false, tbl);
    CountedOne(acCounts[..], raw, false, tbl);
    CountedMore(before, acCounts[..], acCounts[..], [sym], [raw], false, tbl);
    CountedMore(start, before, acCounts[..], did, [sym] + [raw], false, tbl);
    assert [sym] + [raw] == [sym, raw];
  }

  method CountDc(dcCounts: array<nat>, ghost tbl: nat, diff: int) returns (ok: bool)
    requires dcCounts.Length == COUNTERS && tbl < NUM_HUFF_TBLS
    modifies dcCounts
    ensures ok <==> DcInRange(diff)
    ensures ok ==> Counted(old(dcCounts[..]), dcCounts[..], DcTokens(tbl, diff), true, tbl)
  {
    hide Counted;
    var temp := diff;
    if temp < 0 {
      temp := -temp;
    }
    var nbits := CountBits(temp);
    if nbits > MAX_COEF_BITS + 1 {
      return false;
    }
    ghost var start, sym := dcCounts[..], Sym(true, tbl, nbits);
    CountSymbol(dcCounts, nbits, true, tbl);
    if nbits != 0 {
      CountedOne(dcCounts[..], Raw(Extra(diff), nbits), true, tbl);
      CountedMore(start, dcCounts[..], dcCounts[..], [sym], [Raw(Extra(diff), nbits)], true, tbl);
      assert [sym] + [Raw(Extra(diff), nbits)] == DcTokens(tbl, diff);
    }
    ok := true;
  }

  method CountAc(acCounts: array<nat>, ghost tbl: nat, block: seq<int>, order: seq<nat>, se: nat) returns (ok: bool)
    requires acCounts.Length == COUNTERS && tbl < NUM_HUFF_TBLS && ScanOrder(order, se) && |block| == 64
    modifies acCounts
    ensures ok <==> AllInRange(Band(order, se, block))
    ensures ok ==> Counted(old(acCounts[..]), acCounts[..], AcTokens(tbl, Band(order, se, block), 1, 0), false, tbl)
  {
    hide Counted;
    ghost var z, start := Band(order, se, block), acCounts[..];
    ghost var did: seq<Token> := [];
    CountedNothing(start, false, tbl);
    var r := 0;
    for k := 1 to se + 1
      invariant Counted(start, acCounts[..], did, false, tbl)
      invariant forall i :: 1 <= i < k ==> AcInRange(z[i])
      invariant AllInRange(z) ==> did + AcTokens(tbl, z, k, r) == AcTokens(tbl, z, 1, 0)
    {
      var temp := block[order[k]];
      if temp == 0 {
        r := r + 1;
      } else {
        var nbits := CountBitsNonzero(Abs(temp));
        if nbits > MAX_COEF_BITS {
          assert !AcInRange(z[k]);
          return false;
        }
        ghost var before, some := acCounts[..], NonzeroTokens(tbl, r, temp);
        CountNonzero(acCounts, tbl, r, temp, nbits);
        CountedMore(start, before, acCounts[..], did, some, false, tbl);
        if AllInRange(z) {
          assert did + (some + AcTokens(tbl, z, k + 1, 0)) == (did + some) + AcTokens(tbl, z, k + 1, 0);
        }
        did := did + some;
        r := 0;
      }
    }
    if r > 0 {
      ghost var before := acCounts[..];
      CountSymbol(acCounts, 0, false, tbl);
      CountedMore(start, before, acCounts[..], did, [Sym(false, tbl, 0)], false, tbl);
    } else {
      assert did + [] == did;
    }
    ok := true;
  }

  // Symbols of other tables leave a counter alone.
  lemma {:induction false} OtherTable(a: seq<nat>, toks: seq<Token>, isDC: bool, tbl: nat)
    requires forall tok <- toks :: tok.Sym? ==> tok.isDC != isDC || tok.tbl != tbl
    ensures Counted(a, a, toks, isDC, tbl)
    decreases |toks|
  {
    hide CountOf;
    if toks == [] {
      CountedNothing(a, isDC, tbl);
    } else {
      var x, tok := toks[..|toks| - 1], toks[|toks| - 1];
      OtherTable(a, x, isDC, tbl);
      CountedOne(a, tok, isDC, tbl);
      CountedMore(a, a, a, x, [tok], isDC, tbl);
      assert x + [tok] == toks;
    }
  }

  lemma {:induction false} NonzeroAreAc(tbl: nat, r: nat, v: int)
    requires tbl < NUM_HUFF_TBLS && v != 0 && AcInRange(v)
    ensures forall tok <- NonzeroTokens(tbl, r, v) :: tok.Sym? ==> AcSymbol(tok, tbl)
  {
    hide BitLen, Extra;
    if r > 15 {
      NonzeroAreAc(tbl, r - 16, v);
    } else {
      SizeOfSymbol(r, BitLen(Abs(v)));
    }
  }

  lemma SizeOfSymbol(r: nat, n: nat)
    requires n < 16
    ensures (16 * r + n) % 16 == n && (16 * r + n) / 16 == r
  {
  }

  // The symbols that AC coefficients lead to: sizes up to ten, and EOB and ZRL.
  predicate AcSymbol(tok: Token, tbl: nat) {
    tok.Sym? && !tok.isDC && tok.tbl == tbl && tok.sym % 16 <= MAX_COEF_BITS
  }

  predicate DcSymbol(tok: Token, tbl: nat) {
    tok.Sym? && tok.isDC && tok.tbl == tbl && tok.sym <= MAX_COEF_BITS + 1
  }

  lemma {:induction false} AcAreAc(tbl: nat, z: seq<int>, k: nat, r: nat)
    requires tbl < NUM_HUFF_TBLS && AllInRange(z) && 1 <= k
    ensures forall tok <- AcTokens(tbl, z, k, r) :: tok.Sym? ==> AcSymbol(tok, tbl)
    decreases |z| - k
  {
    hide AcSymbol;
    if k < |z| {
      AcAreAc(tbl, z, k + 1, if z[k] == 0 then r + 1 else 0);
      if z[k] != 0 { NonzeroAreAc(tbl, r, z[k]); }
    } else {
      EobIsAc(tbl);
    }
  }

  lemma EobIsAc(tbl: nat)
    ensures AcSymbol(Sym(false, tbl, 0), tbl)
  {
  }

  // All symbols of a block belong to its two tables.
  lemma BlockSymbols(dcTbl: nat, acTbl: nat, z: seq<int>, lastDc: int)
    requires dcTbl < NUM_HUFF_TBLS && acTbl < NUM_HUFF_TBLS && InRange(z, lastDc)
    ensures forall tok <- BlockTokens(dcTbl, acTbl, z, lastDc) ::
        tok.Sym? ==> DcSymbol(tok, dcTbl) || AcSymbol(tok, acTbl)
  {
    hide AcSymbol;
    AcAreAc(acTbl, z, 1, 0);
  }

  method HTestOneBlock(block: seq<int>, lastDc: int, order: seq<nat>, se: nat, dcCounts: array<nat>,
      acCounts: array<nat>, ghost dcTbl: nat, ghost acTbl: nat)
    returns (ok: bool)
    requires ScanOrder(order, se) && |block| == 64 && dcTbl < NUM_HUFF_TBLS && acTbl < NUM_HUFF_TBLS
    requires dcCounts.Length == acCounts.Length == COUNTERS && dcCounts != acCounts
    modifies dcCounts, acCounts
    ensures ok <==> InRange(Band(order, se, block), lastDc)
    ensures ok ==> var toks := BlockTokens(dcTbl, acTbl, Band(order, se, block), lastDc);
                   Counted(old(dcCounts[..]), dcCounts[..], toks, true, dcTbl)
                       && Counted(old(acCounts[..]), acCounts[..], toks, false, acTbl)
  {
    hide Counted;
    ghost var z := Band(order, se, block);
    ghost var dc0, ac0 := dcCounts[..], acCounts[..];
    ok := CountDc(dcCounts, dcTbl, block[0] - lastDc);
    if !ok {
      return;
    }
    ok := CountAc(acCounts, acTbl, block, order, se);
    if ok {
      ghost var dc, ac := DcTokens(dcTbl, z[0] - lastDc), AcTokens(acTbl, z, 1, 0);
      AcAreAc(acTbl, z, 1, 0);
      OtherTable(dcCounts[..], ac, true, dcTbl);
      OtherTable(ac0, dc, false, acTbl);
      CountedMore(dc0, dcCounts[..], dcCounts[..], dc, ac, true, dcTbl);
      CountedMore(ac0, ac0, acCounts[..], dc, ac, false, acTbl);
    }
  }
}
