// encode_mcu_AC_first and encode_mcu_AC_refine of jchuff.c.
module ProgAcEncoder {
  import opened Coefs
  import opened BitString
  import opened HuffGen
  import opened HuffTokens
  import opened HuffBlock
  import opened HuffSeqEncoder
  import opened ProgTokens
  import opened P = ProgEncoder

  // What has been emitted, and whether all of it could be.
  lemma PassesSplit(e: P.ProgEncoder, a: seq<Token>, b: seq<Token>)
    requires GoodTables(e.tables) && TokensOk(a) && TokensOk(b)
    ensures e.Passes(a + b) <==> e.Passes(a) && e.Passes(b)
  {
    hide GoodTables, TokenOk, TokenCoded;
    SplitCoded(e.tables, a, b);
  }

  lemma PassesThree(e: P.ProgEncoder, a: seq<Token>, b: seq<Token>, c: seq<Token>)
    requires GoodTables(e.tables) && TokensOk(a) && TokensOk(b) && TokensOk(c)
    ensures e.Passes((a + b) + c) <==> e.Passes(a) && e.Passes(b) && e.Passes(c)
    ensures (a + b) + c == a + (b + c)
  {
    hide e.Passes;
    PassesSplit(e, a, b);
    PassesSplit(e, a + b, c);
  }

  lemma NothingPasses(e: P.ProgEncoder)
    requires GoodTables(e.tables)
    ensures e.Passes([])
  {
  }

  lemma RawPasses(e: P.ProgEncoder, toks: seq<Token>)
    requires GoodTables(e.tables) && TokensOk(toks) && forall i :: 0 <= i < |toks| ==> toks[i].Raw?
    ensures e.Passes(toks)
  {
    RawsPass(e.tables, toks);
  }

  // ---- First scan --------------------------------------------------------------------------------------------------

  // The zeros that have gone by, in sixteens, and the coefficient.
  method EmitNonzero(e: P.ProgEncoder, r0: nat, v: int) returns (ok: bool)
    requires e.Sound() && v != 0
    modifies e`log, e.w, e.dcCounts, e.acCounts
    ensures e.acTbl < NUM_HUFF_TBLS
    ensures ok <==> AcInRange(v) && e.Passes(NonzeroTokens(e.acTbl, r0, v))
    ensures ok ==> e.Sound() && e.log == old(e.log) + NonzeroTokens(e.acTbl, r0, v)
  {
    hide e.Sound, e.Passes, GoodTables, AcInRange;
    e.SoundBuffer();
    var r: nat := r0;
    ghost var did: seq<Token> := [];
    NothingPasses(e);
    while r > 15
      invariant e.Sound() && TokensOk(did) && e.Passes(did) && e.log == old(e.log) + did
      invariant AcInRange(v) ==> did + NonzeroTokens(e.acTbl, r, v) == NonzeroTokens(e.acTbl, r0, v)
    {
      ghost var zrl := [Sym(false, e.acTbl, ZRL)];
      if AcInRange(v) { PassesThree(e, did, zrl, NonzeroTokens(e.acTbl, r - 16, v)); }
      PassesSplit(e, did, zrl);
      ok := e.EmitSymbol(false, e.acTbl, ZRL);
      if !ok {
        return;
      }
      did := did + zrl;
      r := r - 16;
    }
    if AcInRange(v) { PassesSplit(e, did, NonzeroTokens(e.acTbl, r, v)); }
    ok := EmitCoef(e, r, v);
  }

  // The symbol for at most fifteen zeros and the size of the coefficient, and its bits.
  method EmitCoef(e: P.ProgEncoder, r: nat, v: int) returns (ok: bool)
    requires e.Sound() && v != 0 && r <= 15
    modifies e`log, e.w, e.dcCounts, e.acCounts
    ensures e.acTbl < NUM_HUFF_TBLS
    ensures ok <==> AcInRange(v) && e.Passes(NonzeroTokens(e.acTbl, r, v))
    ensures ok ==> e.Sound() && e.log == old(e.log) + NonzeroTokens(e.acTbl, r, v)
  {
    hide e.Sound, e.Passes, GoodTables, Extra;
    e.SoundBuffer();
    var nbits := CountBitsNonzero(Abs(v));
    if nbits > MAX_COEF_BITS {
      return false;
    }
    BitLenBounds(Abs(v));
    ghost var sym, raw := [Sym(false, e.acTbl, 16 * r + nbits)], [Raw(Extra(v), nbits)];
    assert sym + raw == NonzeroTokens(e.acTbl, r, v);
    PassesSplit(e, sym, raw);
    RawPasses(e, raw);
    ok := e.EmitSymbol(false, e.acTbl, 16 * r + nbits);
    if !ok {
      return;
    }
    var temp2 := if v < 0 then v - 1 else v;
    LowBits(v);
    e.EmitBits(Word(temp2), nbits, Extra(v));
  }

  // The state between two coefficients: what has been emitted for the block, and the run
  // if none of it has been.
  ghost predicate FirstSoFar(e: P.ProgEncoder, t: seq<int>, k: nat, r: nat, run0: nat, run: nat, did: seq<Token>)
    requires e.acTbl < NUM_HUFF_TBLS
  {
    && k <= |t| && run0 < MAX_EOBRUN && TokensOk(did) && GoodTables(e.tables) && e.Passes(did)
    && r <= k && (forall i :: k - r <= i < k ==> t[i] == 0)
    && (k > 0 && r == 0 ==> t[k - 1] != 0)
    && (forall i :: 0 <= i < k ==> AcInRange(t[i]))
    && (if AllZero(t[..k]) then did == [] && run == run0 && r == k else run == 0)
    && (BandInRange(t) ==>
        did + (EobTokens(e.acTbl, run) + CoefTokens(e.acTbl, t, k, r)) == EobTokens(e.acTbl, run0)
        + CoefTokens(e.acTbl, t, 0, 0))
  }

  lemma FirstZero(e: P.ProgEncoder, t: seq<int>, k: nat, r: nat, run0: nat, run: nat, did: seq<Token>)
    requires e.acTbl < NUM_HUFF_TBLS && FirstSoFar(e, t, k, r, run0, run, did) && k < |t| && t[k] == 0
    ensures FirstSoFar(e, t, k + 1, r + 1, run0, run, did)
  {
    hide e.Passes, GoodTables, EobTokens;
    assert t[..k + 1] == t[..k] + [t[k]];
    assert AcInRange(0);
  }

  lemma FirstNonzero(e: P.ProgEncoder, t: seq<int>, k: nat, r: nat, run0: nat, run: nat, did: seq<Token>)
    requires e.acTbl < NUM_HUFF_TBLS && FirstSoFar(e, t, k, r, run0, run, did) && k < |t| && t[k] != 0
        && AcInRange(t[k]) && run < MAX_EOBRUN
    requires e.Passes(EobTokens(e.acTbl, run)) && e.Passes(NonzeroTokens(e.acTbl, r, t[k]))
    ensures FirstSoFar(e, t, k + 1, 0, run0, 0, did + (EobTokens(e.acTbl, run) + NonzeroTokens(e.acTbl, r, t[k])))
  {
    hide e.Passes, GoodTables, EobTokens, NonzeroTokens, AcInRange;
    NoRunPasses(e);
    var x, y := EobTokens(e.acTbl, run), NonzeroTokens(e.acTbl, r, t[k]);
    assert t[..k + 1][k] != 0;
    PassesSplit(e, x, y);
    PassesSplit(e, did, x + y);
    if BandInRange(t) {
      var z := CoefTokens(e.acTbl, t, k + 1, 0);
      assert did + (x + (y + z)) == (did + (x + y)) + (EobTokens(e.acTbl, 0) + z);
    }
  }

  // The coefficient at place k cannot be emitted, so neither can the block.
  lemma FirstStuck(e: P.ProgEncoder, t: seq<int>, k: nat, r: nat, run0: nat, run: nat, did: seq<Token>)
    requires e.acTbl < NUM_HUFF_TBLS && FirstSoFar(e, t, k, r, run0, run, did) && k < |t| && t[k] != 0
        && run < MAX_EOBRUN
    requires !(AcInRange(t[k]) && e.Passes(EobTokens(e.acTbl, run)) && e.Passes(NonzeroTokens(e.acTbl, r, t[k])))
    ensures !(BandInRange(t) && e.Passes(StepFirst(e.acTbl, t, run0).toks))
  {
    hide e.Passes, GoodTables, NonzeroTokens, EobTokens;
    if BandInRange(t) {
      var x, y, z := EobTokens(e.acTbl, run), NonzeroTokens(e.acTbl, r, t[k]), CoefTokens(e.acTbl, t, k + 1, 0);
      PassesThree(e, x, y, z);
      PassesSplit(e, did, x + (y + z));
      var body := EobTokens(e.acTbl, run0) + CoefTokens(e.acTbl, t, 0, 0);
      assert !AllZero(t);
      PassesSplit(e, body, EobTokens(e.acTbl, MAX_EOBRUN));
    }
  }

  lemma FirstDone(e: P.ProgEncoder, t: seq<int>, r: nat, run0: nat, run: nat, did: seq<Token>)
    requires e.acTbl < NUM_HUFF_TBLS && FirstSoFar(e, t, |t|, r, run0, run, did) && t != []
    ensures BandInRange(t) && (r > 0 <==> t[|t| - 1] == 0) && run < MAX_EOBRUN
    ensures var st := StepFirst(e.acTbl, t, run0);
            && (r == 0 ==> st == FirstStep(did, run))
            && (r > 0 && run + 1 == MAX_EOBRUN ==> st == FirstStep(did + EobTokens(e.acTbl, MAX_EOBRUN), 0))
            && (r > 0 && run + 1 < MAX_EOBRUN ==> st == FirstStep(did, run + 1))
  {
    hide e.Passes, GoodTables, NonzeroTokens;
    assert t[..|t|] == t;
    assert did + ([] + []) == did;
    if !AllZero(t) { assert EobTokens(e.acTbl, run) == []; }
  }

  // encode_mcu_AC_first, between the beginning and the end of the MCU.
  method EncodeAcFirst(e: P.ProgEncoder, block: seq<int>, order: seq<nat>, ss: nat, se: nat, al: nat) returns (ok: bool)
    requires e.Valid() && e.be == 0 && |block| == 64 && GoodBand(order, ss, se)
    modifies e`log, e`eobrun, e`be, e.w, e.dcCounts, e.acCounts
    ensures e.acTbl < NUM_HUFF_TBLS
    ensures var t := TruncatedBand(SubBand(order, ss, se, block), al);
            && (ok <==> BandInRange(t) && e.Passes(StepFirst(e.acTbl, t, old(e.eobrun)).toks))
            && (ok ==> e.Valid() && e.be == 0 && e.eobrun == StepFirst(e.acTbl, t, old(e.eobrun)).run
                       && e.log == old(e.log) + StepFirst(e.acTbl, t, old(e.eobrun)).toks)
  {
    hide e.Sound, e.Passes, GoodTables, FirstSoFar, NonzeroTokens, RunTokens, EobTokens, Shr, StepFirst;
    e.SoundBuffer();
    ghost var t, run0 := TruncatedBand(SubBand(order, ss, se, block), al), e.eobrun;
    ghost var did: seq<Token> := [];
    var r := 0;
    FirstStart(e, t, run0);
    for k := ss to se + 1
      invariant e.Sound() && e.eobrun < MAX_EOBRUN && e.be == 0 && e.log == old(e.log) + did
      invariant FirstSoFar(e, t, k - ss, r, run0, e.eobrun, did)
    {
      var temp := block[order[k]];
      var v: int := Shr(Abs(temp), al);
      if temp < 0 { v := -v; }
      assert v == t[k - ss];
      if v == 0 {
        FirstZero(e, t, k - ss, r, run0, e.eobrun, did);
        r := r + 1;
      } else {
        ghost var run := e.eobrun;
        EmptyBuffer(e.acTbl, run, e.bitBuffer[..0]);
        if AcInRange(v) && e.Passes(EobTokens(e.acTbl, run)) && e.Passes(NonzeroTokens(e.acTbl, r, v)) {
          FirstNonzero(e, t, k - ss, r, run0, run, did);
        } else {
          FirstStuck(e, t, k - ss, r, run0, run, did);
        }
        ok := true;
        if e.eobrun > 0 {
          ok := e.EmitEobrun();
        } else {
          NoRunPasses(e);
        }
        if ok {
          ok := EmitNonzero(e, r, v);
        }
        if !ok {
          return;
        }
        did := did + (EobTokens(e.acTbl, run) + NonzeroTokens(e.acTbl, r, v));
        r := 0;
      }
    }
    FirstDone(e, t, r, run0, e.eobrun, did);
    FirstPasses(e, t, |t|, r, run0, e.eobrun, did);
    ok := true;
    if r > 0 {
      e.eobrun := e.eobrun + 1;
      if e.eobrun == MAX_EOBRUN {
        EmptyBuffer(e.acTbl, MAX_EOBRUN, e.bitBuffer[..0]);
        PassesSplit(e, did, EobTokens(e.acTbl, MAX_EOBRUN));
        ok := e.EmitEobrun();
      }
    }
  }

  lemma FirstStart(e: P.ProgEncoder, t: seq<int>, run0: nat)
    requires e.acTbl < NUM_HUFF_TBLS && run0 < MAX_EOBRUN && GoodTables(e.tables)
    ensures FirstSoFar(e, t, 0, 0, run0, run0, [])
  {
    NothingPasses(e);
    if BandInRange(t) {
      var x := EobTokens(e.acTbl, run0) + CoefTokens(e.acTbl, t, 0, 0);
      assert [] + x == x;
    }
  }

  lemma FirstPasses(e: P.ProgEncoder, t: seq<int>, k: nat, r: nat, run0: nat, run: nat, did: seq<Token>)
    requires e.acTbl < NUM_HUFF_TBLS && FirstSoFar(e, t, k, r, run0, run, did)
    ensures TokensOk(did) && GoodTables(e.tables) && e.Passes(did)
  {
  }

  lemma EmptyBuffer(tbl: nat, run: nat, none: seq<bool>)
    requires tbl < NUM_HUFF_TBLS && run <= MAX_EOBRUN && none == []
    ensures RunTokens(tbl, run, none) == EobTokens(tbl, run)
  {
    assert EobTokens(tbl, run) + [] == EobTokens(tbl, run);
  }

  lemma NoRunPasses(e: P.ProgEncoder)
    requires GoodTables(e.tables) && e.acTbl < NUM_HUFF_TBLS
    ensures EobTokens(e.acTbl, 0) == [] && e.Passes([])
  {
  }

  // ---- Refinement --------------------------------------------------------------------------------------------------

  function AllRefine(tbl: nat, m: seq<Mag>, run0: nat, be0: seq<bool>): (toks: seq<Token>)
    requires tbl < NUM_HUFF_TBLS && run0 <= MAX_EOBRUN
    ensures TokensOk(toks)
  {
    RunTokens(tbl, run0, be0) + RefineTokens(tbl, m, 0, 0, [])
  }

  // The state between two coefficients: the run and its correction bits are still there
  // as long as nothing has been emitted for the block; br are the correction bits of the
  // known coefficients that have gone by since.
  ghost predicate RefineSoFar(e: P.ProgEncoder, m: seq<Mag>, k: nat, r: nat, run0: nat, be0: seq<bool>, run: nat,
      be: seq<bool>, br: seq<bool>,
                              did: seq<Token>)
    requires e.acTbl < NUM_HUFF_TBLS
  {
    var end := NewEnd(m);
    && k <= |m| && run0 < MAX_EOBRUN && (run0 == 0 ==> be0 == []) && TokensOk(did) && GoodTables(e.tables)
    && e.Passes(did)
    && ((did == [] && run == run0 && be == be0) || (run == 0 && be == [] && end > 0)) && |br| <= k
    && (if k < end then did + (RunTokens(e.acTbl, run, be) + RefineTokens(e.acTbl, m, k, r, br))
        == AllRefine(e.acTbl, m, run0, be0)
        else && did == (if end > 0 then AllRefine(e.acTbl, m, run0, be0) else []) && (end > 0 ==> run == 0 && be == [])
             && r + |br| == k - end && br + Corrections(m, k) == Corrections(m, end))
  }

  lemma RefineStart(e: P.ProgEncoder, m: seq<Mag>, run0: nat, be0: seq<bool>)
    requires e.acTbl < NUM_HUFF_TBLS && GoodTables(e.tables) && run0 < MAX_EOBRUN && (run0 == 0 ==> be0 == [])
    ensures RefineSoFar(e, m, 0, 0, run0, be0, run0, be0, [], [])
  {
    NothingPasses(e);
    var x := AllRefine(e.acTbl, m, run0, be0);
    assert [] + x == x;
    assert [] + Corrections(m, 0) == Corrections(m, 0);
  }

  lemma RefineZero(e: P.ProgEncoder, m: seq<Mag>, k: nat, r: nat, run0: nat, be0: seq<bool>, run: nat, be: seq<bool>,
      br: seq<bool>, did: seq<Token>)
    requires e.acTbl < NUM_HUFF_TBLS && RefineSoFar(e, m, k, r, run0, be0, run, be, br, did) && k < |m| && m[k].abs == 0
    ensures RefineSoFar(e, m, k + 1, r + 1, run0, be0, run, be, br, did)
  {
    hide e.Passes, GoodTables, RunTokens, AllRefine;
  }

  lemma PassingTokens(tbl: nat, m: seq<Mag>, k: nat, r: nat, br: seq<bool>)
    requires tbl < NUM_HUFF_TBLS && k < |m| && m[k].abs > 1
    ensures k < NewEnd(m) && r <= 15 ==>
        k + 1 < NewEnd(m) && RefineTokens(tbl, m, k, r, br) == RefineTokens(tbl, m, k + 1, r, br + [m[k].abs % 2 == 1])
    ensures Corrections(m, k) == [m[k].abs % 2 == 1] + Corrections(m, k + 1)
  {
    hide NewEnd;
  }

  lemma RefineKnown(e: P.ProgEncoder, m: seq<Mag>, k: nat, r: nat, run0: nat, be0: seq<bool>, run: nat, be: seq<bool>,
      br: seq<bool>, did: seq<Token>)
    requires e.acTbl < NUM_HUFF_TBLS && RefineSoFar(e, m, k, r, run0, be0, run, be, br, did)
    requires k < |m| && m[k].abs > 1 && (r <= 15 || k >= NewEnd(m))
    ensures RefineSoFar(e, m, k + 1, r, run0, be0, run, be, br + [m[k].abs % 2 == 1], did)
  {
    hide e.Passes, GoodTables, RunTokens, AllRefine, RefineTokens, NewEnd, Corrections;
    PassingTokens(e.acTbl, m, k, r, br);
    assert br + ([m[k].abs % 2 == 1] + Corrections(m, k + 1)) == (br + [m[k].abs % 2 == 1]) + Corrections(m, k + 1);
  }

  // Something is emitted: the run that was waiting, and head.
  lemma RefineEmitted(e: P.ProgEncoder, m: seq<Mag>, k: nat, r: nat, run0: nat, be0: seq<bool>, run: nat, be: seq<bool>,
      br: seq<bool>, did: seq<Token>,
                      head: seq<Token>, k': nat, r': nat)
    requires e.acTbl < NUM_HUFF_TBLS && RefineSoFar(e, m, k, r, run0, be0, run, be, br, did) && k < NewEnd(m)
        && run <= MAX_EOBRUN
    requires TokensOk(head) && k <= k' <= NewEnd(m) && (k' == NewEnd(m) ==> r' == 0)
    requires RefineTokens(e.acTbl, m, k, r, br) == head + RefineTokens(e.acTbl, m, k', r', [])
    requires e.Passes(RunTokens(e.acTbl, run, be)) && e.Passes(head)
    ensures RefineSoFar(e, m, k', r', run0, be0, 0, [], [], did + (RunTokens(e.acTbl, run, be) + head))
  {
    hide e.Passes, GoodTables, RunTokens, AllRefine;
    var x, z := RunTokens(e.acTbl, run, be), RefineTokens(e.acTbl, m, k', r', []);
    PassesSplit(e, x, head);
    PassesSplit(e, did, x + head);
    EmptyBuffer(e.acTbl, 0, []);
    NoRunPasses(e);
    assert did + (x + (head + z)) == (did + (x + head)) + ([] + z);
    if k' == NewEnd(m) { assert (did + (x + head)) + [] == did + (x + head); }
    assert [] + Corrections(m, k') == Corrections(m, k');
  }

  lemma RefineStuck(e: P.ProgEncoder, m: seq<Mag>, k: nat, r: nat, run0: nat, be0: seq<bool>, run: nat, be: seq<bool>,
      br: seq<bool>, did: seq<Token>,
                    head: seq<Token>, more: seq<Token>)
    requires e.acTbl < NUM_HUFF_TBLS && RefineSoFar(e, m, k, r, run0, be0, run, be, br, did) && k < NewEnd(m)
        && run <= MAX_EOBRUN
    requires TokensOk(head) && TokensOk(more) && RefineTokens(e.acTbl, m, k, r, br) == head + more
    requires !(e.Passes(RunTokens(e.acTbl, run, be)) && e.Passes(head))
    ensures !e.Passes(StepRefine(e.acTbl, m, run0, be0).toks)
  {
    hide e.Passes, GoodTables, RunTokens, RefineTokens;
    var x := RunTokens(e.acTbl, run, be);
    PassesThree(e, x, head, more);
    PassesSplit(e, did, x + (head + more));
    var bits := [] + Corrections(m, NewEnd(m));
    PassesSplit(e, AllRefine(e.acTbl, m, run0, be0), RunTokens(e.acTbl, 1, bits));
  }

  // The block is done: what is left of it joins the run.
  lemma RefineDone(e: P.ProgEncoder, m: seq<Mag>, r: nat, run0: nat, be0: seq<bool>, run: nat, be: seq<bool>,
      br: seq<bool>, did: seq<Token>)
    requires e.acTbl < NUM_HUFF_TBLS && RefineSoFar(e, m, |m|, r, run0, be0, run, be, br, did) && m != []
    ensures run < MAX_EOBRUN && TokensOk(did) && GoodTables(e.tables) && e.Passes(did) && (run == 0 ==> be == [])
    ensures var st := StepRefine(e.acTbl, m, run0, be0);
            && (r == 0 && br == [] ==> st == RefineStep(did, run, be))
            && (r > 0 || br != [] ==>
                  if MustFlush(run + 1, be + br)
                      then st == RefineStep(did + RunTokens(e.acTbl, run + 1, be + br), 0, [])
                  else st == RefineStep(did, run + 1, be + br))
  {
    hide e.Passes, GoodTables, RunTokens;
    assert br + [] == br;
  }

  // A symbol, at most one sign, and the correction bits that belong to it.
  function Emission(tbl: nat, sym: nat, sign: int, bits: seq<bool>): (toks: seq<Token>)
    requires tbl < NUM_HUFF_TBLS && sym < REAL
    ensures TokensOk(toks)
  {
    ([Sym(false, tbl, sym)] + (if sign < 0 then [] else [Raw(sign, 1)])) + RawBits(bits)
  }

  // What ends a stretch of zeros: sixteen of them, or a new coefficient.
  lemma ZrlTokens(tbl: nat, m: seq<Mag>, k: nat, r: nat, br: seq<bool>)
    requires tbl < NUM_HUFF_TBLS && k < NewEnd(m) && m[k].abs != 0 && r > 15
    ensures RefineTokens(tbl, m, k, r, br) == Emission(tbl, ZRL, -1, br) + RefineTokens(tbl, m, k, r - 16, [])
  {
    assert [Sym(false, tbl, ZRL)] + [] == [Sym(false, tbl, ZRL)];
  }

  lemma NewTokens(tbl: nat, m: seq<Mag>, k: nat, r: nat, br: seq<bool>)
    requires tbl < NUM_HUFF_TBLS && k < |m| && m[k].abs == 1 && r <= 15
    ensures k < NewEnd(m)
    ensures RefineTokens(tbl, m, k, r, br) == Emission(tbl, 16 * r + 1, if m[k].neg then 0 else 1, br)
        + RefineTokens(tbl, m, k + 1, 0, [])
  {
    var sign := if m[k].neg then 0 else 1;
    assert [Sym(false, tbl, 16 * r + 1)] + [Raw(sign, 1)] == [Sym(false, tbl, 16 * r + 1), Raw(sign, 1)];
  }

  method Emit(e: P.ProgEncoder, sym: nat, sign: int, base: nat, br: nat) returns (ok: bool)
    requires e.Sound() && base + br <= MAX_CORR_BITS && sym < REAL
    modifies e`log, e.w, e.dcCounts, e.acCounts
    ensures e.acTbl < NUM_HUFF_TBLS && e.bitBuffer.Length == MAX_CORR_BITS
    ensures var head := Emission(e.acTbl, sym, sign, e.bitBuffer[base..base + br]);
            (ok <==> e.Passes(head)) && (ok ==> e.Sound() && e.log == old(e.log) + head)
  {
    hide e.Sound, e.Passes, GoodTables;
    e.SoundBuffer();
    ghost var first := [Sym(false, e.acTbl, sym)];
    ghost var second := if sign < 0 then [] else [Raw(sign, 1)];
    ghost var third := RawBits(e.bitBuffer[base..base + br]);
    PassesThree(e, first, second, third);
    RawPasses(e, second);
    RawPasses(e, third);
    ok := e.EmitSymbol(false, e.acTbl, sym);
    if !ok {
      return;
    }
    if sign >= 0 {
      e.EmitBits(sign, 1, sign);
    }
    assert e.log == old(e.log) + (first + second);
    e.EmitBuffered(base, br);
    assert e.log == old(e.log) + ((first + second) + third);
  }

  // The run that was waiting, then the emission.
  method EmitAfterRun(e: P.ProgEncoder, sym: nat, sign: int, base: nat, br: nat) returns (ok: bool)
    requires e.Sound() && e.eobrun <= MAX_EOBRUN && e.be <= base <= base + br <= MAX_CORR_BITS
        && (e.eobrun == 0 ==> e.be == 0) && sym < REAL
    modifies e`log, e`eobrun, e`be, e.w, e.dcCounts, e.acCounts
    ensures e.acTbl < NUM_HUFF_TBLS && e.bitBuffer.Length == MAX_CORR_BITS
    ensures var run := RunTokens(e.acTbl, old(e.eobrun), e.bitBuffer[..old(e.be)]);
            var head := Emission(e.acTbl, sym, sign, e.bitBuffer[base..base + br]);
            && (ok <==> e.Passes(run) && e.Passes(head))
            && (ok ==> e.Sound() && e.eobrun == 0 && e.be == 0 && e.log == old(e.log) + (run + head))
  {
    hide e.Sound, e.Passes, GoodTables, RunTokens, Emission;
    e.SoundBuffer();
    ok := e.EmitEobrun();
    if ok {
      ok := Emit(e, sym, sign, base, br);
    }
  }

  // ---- One block of a refinement scan ------------------------------------------------------------------------------

  // The pre-pass: magnitudes after the point transform, and the place of the last new
  // coefficient (one more than it, relative to the band; zero when there is none).
  method Magnitudes(block: seq<int>, order: seq<nat>, ss: nat, se: nat, al: nat) returns (absvalues: seq<nat>, eob: nat)
    requires |block| == 64 && GoodBand(order, ss, se)
    ensures var m := MagBand(SubBand(order, ss, se, block), al);
            && |absvalues| == 64 && (forall k :: 0 <= k < |m| ==> absvalues[ss + k] == m[k].abs)
            && (if NewEnd(m) == 0 then eob == 0 else eob == ss + NewEnd(m) - 1)
  {
    hide Shr;
    ghost var m := MagBand(SubBand(order, ss, se, block), al);
    var a := new nat[64];
    eob := 0;
    assert NewEnd(m[..0]) == 0;
    for k := ss to se + 1
      invariant forall i :: 0 <= i < k - ss ==> a[ss + i] == m[i].abs
      invariant if NewEnd(m[..k - ss]) == 0 then eob == 0 else eob == ss + NewEnd(m[..k - ss]) - 1
    {
      var temp := Shr(Abs(block[order[k]]), al);
      assert temp == m[k - ss].abs;
      a[k] := temp;
      if temp == 1 {
        eob := k;
      }
      assert m[..k - ss + 1][..k - ss] == m[..k - ss];
    }
    assert m[..|m|] == m;
    absvalues := a[..];
  }

  // The buffer holds the correction bits that are waiting and behind them those of the
  // first k coefficients of this block.
  ghost predicate RefineBuffer(e: P.ProgEncoder, base: nat, br: nat, k: nat)
    reads e, e.w, e.dcCounts, e.acCounts
  {
    && e.Valid() && e.bitBuffer.Length == MAX_CORR_BITS
    && base == e.be && br <= k < DCTSIZE2
  }

  lemma RefineEither(e: P.ProgEncoder, m: seq<Mag>, k: nat, r: nat, run0: nat, be0: seq<bool>, run: nat, be: seq<bool>,
      br: seq<bool>, did: seq<Token>,
                     head: seq<Token>, k': nat, r': nat)
    requires e.acTbl < NUM_HUFF_TBLS && RefineSoFar(e, m, k, r, run0, be0, run, be, br, did) && k < NewEnd(m)
        && run <= MAX_EOBRUN
    requires TokensOk(head) && k <= k' <= NewEnd(m) && (k' == NewEnd(m) ==> r' == 0)
    requires RefineTokens(e.acTbl, m, k, r, br) == head + RefineTokens(e.acTbl, m, k', r', [])
    ensures RunOk(run0, be0) && m != []
    ensures if e.Passes(RunTokens(e.acTbl, run, be)) && e.Passes(head)
            then RefineSoFar(e, m, k', r', run0, be0, 0, [], [], did + (RunTokens(e.acTbl, run, be) + head))
            else !e.Passes(StepRefine(e.acTbl, m, run0, be0).toks)
  {
    hide e.Passes, GoodTables, RunTokens, RefineTokens, StepRefine;
    if e.Passes(RunTokens(e.acTbl, run, be)) && e.Passes(head) {
      RefineEmitted(e, m, k, r, run0, be0, run, be, br, did, head, k', r');
    } else {
      RefineStuck(e, m, k, r, run0, be0, run, be, br, did, head, RefineTokens(e.acTbl, m, k', r', []));
    }
  }

  predicate RunOk(run: nat, be: seq<bool>) { run < MAX_EOBRUN && (run == 0 ==> be == []) }

  // What is left of the block joins the run; the run is written when waiting for another
  // block would not be safe.
  method FinishRefine(e: P.ProgEncoder, r: nat, base: nat, br: nat, ghost m: seq<Mag>, ghost run0: nat,
      ghost be0: seq<bool>, ghost did: seq<Token>)
    returns (ok: bool, ghost more: seq<Token>)
    requires RefineBuffer(e, base, br, |m|) && m != [] && e.acTbl < NUM_HUFF_TBLS && base + br <= e.bitBuffer.Length
    requires RefineSoFar(e, m, |m|, r, run0, be0, e.eobrun, e.bitBuffer[..e.be], e.bitBuffer[base..base + br], did)
    modifies e`log, e`eobrun, e`be, e.w, e.dcCounts, e.acCounts
    ensures RunOk(run0, be0) && e.bitBuffer.Length == MAX_CORR_BITS
    ensures var st := StepRefine(e.acTbl, m, run0, be0);
            && (ok <==> e.Passes(st.toks))
            && (ok ==>
                e.Valid() && e.eobrun == st.run && e.bitBuffer[..e.be] == st.bits && e.log == old(e.log) + more
                && did + more == st.toks)
  {
    hide e.Sound, e.Passes, GoodTables, RunTokens, RefineSoFar, StepRefine;
    e.SoundBuffer();
    ghost var be, bits := e.bitBuffer[..e.be], e.bitBuffer[base..base + br];
    SoFarRun(e, m, |m|, r, run0, be0, e.eobrun, be, bits, did);
    RefineDone(e, m, r, run0, be0, e.eobrun, be, bits, did);
    assert e.bitBuffer[..base + br] == be + bits;
    ok, more := true, [];
    assert did + [] == did;
    if r > 0 || br > 0 {
      e.eobrun := e.eobrun + 1;
      e.be := e.be + br;
      if e.eobrun == MAX_EOBRUN || e.be > MAX_CORR_BITS - DCTSIZE2 + 1 {
        more := RunTokens(e.acTbl, e.eobrun, e.bitBuffer[..e.be]);
        PassesSplit(e, did, more);
        ok := e.EmitEobrun();
      }
    }
  }

  // One coefficient that is not zero. What is emitted for it goes behind did.
  method RefineCoef(e: P.ProgEncoder, ghost m: seq<Mag>, ghost k: nat, temp: nat, neg: bool, inReach: bool, r0: nat,
      base0: nat, br0: nat,
                    ghost run0: nat, ghost be0: seq<bool>, ghost did: seq<Token>)
    returns (ok: bool, r: nat, base: nat, br: nat, ghost more: seq<Token>)
    requires RefineBuffer(e, base0, br0, k) && k < |m| < DCTSIZE2 && temp == m[k].abs > 0 && neg == m[k].neg
        && (inReach <==> k < NewEnd(m))
    requires e.acTbl < NUM_HUFF_TBLS && base0 + br0 <= e.bitBuffer.Length
    requires RefineSoFar(e, m, k, r0, run0, be0, e.eobrun, e.bitBuffer[..e.be], e.bitBuffer[base0..base0 + br0], did)
    modifies e`log, e`eobrun, e`be, e.w, e.dcCounts, e.acCounts, e.bitBuffer
    ensures RunOk(run0, be0) && base + br <= e.bitBuffer.Length
    ensures !ok ==> !e.Passes(StepRefine(e.acTbl, m, run0, be0).toks)
    ensures ok ==> RefineBuffer(e, base, br, k + 1) && e.log == old(e.log) + more
    ensures ok ==>
        RefineSoFar(e, m, k + 1, r, run0, be0, e.eobrun, e.bitBuffer[..e.be], e.bitBuffer[base..base + br], did + more)
  {
    hide e.Sound, e.Passes, GoodTables, RefineSoFar, RunTokens, Emission, StepRefine, RefineTokens, Corrections, NewEnd;
    e.SoundBuffer();
    SoFarRun(e, m, k, r0, run0, be0, e.eobrun, e.bitBuffer[..e.be], e.bitBuffer[base0..base0 + br0], did);
    r, base, br, more := r0, base0, br0, [];
    assert did + [] == did;
    while r > 15 && inReach
      invariant RefineBuffer(e, base, br, k) && e.log == old(e.log) + more && base + br <= e.bitBuffer.Length
      invariant RefineSoFar(e, m, k, r, run0, be0, e.eobrun, e.bitBuffer[..e.be], e.bitBuffer[base..base + br],
          did + more)
      decreases r
    {
      ghost var run, be, bits := e.eobrun, e.bitBuffer[..e.be], e.bitBuffer[base..base + br];
      ZrlTokens(e.acTbl, m, k, r, bits);
      RefineEither(e, m, k, r, run0, be0, run, be, bits, did + more, Emission(e.acTbl, ZRL, -1, bits), k, r - 16);
      ok := EmitAfterRun(e, ZRL, -1, base, br);
      if !ok {
        return;
      }
      ghost var now := RunTokens(e.acTbl, run, be) + Emission(e.acTbl, ZRL, -1, bits);
      assert did + (more + now) == (did + more) + now;
      more := more + now;
      r, base, br := r - 16, 0, 0;
      assert e.bitBuffer[..0] == [] && e.bitBuffer[0..0] == [];
    }
    if temp > 1 {
      RefineKnown(e, m, k, r, run0, be0, e.eobrun, e.bitBuffer[..e.be], e.bitBuffer[base..base + br], did + more);
      ghost var be, bits := e.bitBuffer[..e.be], e.bitBuffer[base..base + br];
      e.bitBuffer[base + br] := temp % 2 == 1;
      assert e.bitBuffer[base..base + br + 1] == bits + [temp % 2 == 1];
      assert e.bitBuffer[..e.be] == be;
      br := br + 1;
      ok := true;
    } else {
      ghost var now;
      ok, now := RefineNew(e, m, k, neg, r, base, br, run0, be0, did + more);
      assert did + (more + now) == (did + more) + now;
      more := more + now;
      r, base, br := 0, 0, 0;
      assert e.bitBuffer[..0] == [] && e.bitBuffer[0..0] == [];
    }
  }

  lemma SoFarRun(e: P.ProgEncoder, m: seq<Mag>, k: nat, r: nat, run0: nat, be0: seq<bool>, run: nat, be: seq<bool>,
      br: seq<bool>, did: seq<Token>)
    requires e.acTbl < NUM_HUFF_TBLS && RefineSoFar(e, m, k, r, run0, be0, run, be, br, did)
    ensures RunOk(run0, be0)
  {
  }

  // A new coefficient.
  method RefineNew(e: P.ProgEncoder, ghost m: seq<Mag>, ghost k: nat, neg: bool, r: nat, base: nat, br: nat,
                   ghost run0: nat, ghost be0: seq<bool>, ghost did: seq<Token>)
    returns (ok: bool, ghost now: seq<Token>)
    requires RefineBuffer(e, base, br, k) && k < |m| < DCTSIZE2 && m[k].abs == 1 && neg == m[k].neg && r <= 15
    requires e.acTbl < NUM_HUFF_TBLS && base + br <= e.bitBuffer.Length
    requires RefineSoFar(e, m, k, r, run0, be0, e.eobrun, e.bitBuffer[..e.be], e.bitBuffer[base..base + br], did)
    modifies e`log, e`eobrun, e`be, e.w, e.dcCounts, e.acCounts
    ensures RunOk(run0, be0)
    ensures !ok ==> !e.Passes(StepRefine(e.acTbl, m, run0, be0).toks)
    ensures ok ==> e.Valid() && e.be == 0 && e.eobrun == 0 && e.log == old(e.log) + now
    ensures ok ==> RefineSoFar(e, m, k + 1, 0, run0, be0, 0, [], [], did + now)
  {
    hide e.Sound, e.Passes, GoodTables, RefineSoFar, RunTokens, Emission, StepRefine, RefineTokens, NewEnd;
    e.SoundBuffer();
    ghost var run, be, bits := e.eobrun, e.bitBuffer[..e.be], e.bitBuffer[base..base + br];
    var sign := if neg then 0 else 1;
    NewTokens(e.acTbl, m, k, r, bits);
    RefineEither(e, m, k, r, run0, be0, run, be, bits, did, Emission(e.acTbl, 16 * r + 1, sign, bits), k + 1, 0);
    now := RunTokens(e.acTbl, run, be) + Emission(e.acTbl, 16 * r + 1, sign, bits);
    ok := EmitAfterRun(e, 16 * r + 1, sign, base, br);
  }

  // encode_mcu_AC_refine, between the beginning and the end of the MCU. The correction bits of this block go
  // behind those that are waiting; the buffer has room for all of them.
  method EncodeAcRefine(e: P.ProgEncoder, block: seq<int>, order: seq<nat>, ss: nat, se: nat, al: nat)
      returns (ok: bool)
    requires e.Valid() && |block| == 64 && GoodBand(order, ss, se)
    modifies e`log, e`eobrun, e`be, e.w, e.dcCounts, e.acCounts, e.bitBuffer
    ensures e.acTbl < NUM_HUFF_TBLS && e.bitBuffer.Length == MAX_CORR_BITS
    ensures old(e.be) <= MAX_CORR_BITS && old(e.eobrun) < MAX_EOBRUN
    ensures var m := MagBand(SubBand(order, ss, se, block), al);
            var st := StepRefine(e.acTbl, m, old(e.eobrun), old(e.bitBuffer[..e.be]));
            && (ok <==> e.Passes(st.toks))
            && (ok ==>
                  && e.Valid() && e.eobrun == st.run && e.bitBuffer[..e.be] == st.bits
                  && e.log == old(e.log) + st.toks)
  {
    hide e.Sound, e.Passes, GoodTables, RefineSoFar, RunTokens, Shr, StepRefine, RefineTokens, Corrections, NewEnd;
    e.SoundBuffer();
    ghost var m, run0, be0 := MagBand(SubBand(order, ss, se, block), al), e.eobrun, e.bitBuffer[..e.be];
    ghost var did: seq<Token> := [];
    var absvalues, eob := Magnitudes(block, order, ss, se, al);
    var r: nat, br: nat, base: nat := 0, 0, e.be;
    assert e.bitBuffer[base..base + br] == [];
    RefineStart(e, m, run0, be0);
    for k := ss to se + 1
      invariant RefineBuffer(e, base, br, k - ss) && e.log == old(e.log) + did && base + br <= e.bitBuffer.Length
      invariant RefineSoFar(e, m, k - ss, r, run0, be0, e.eobrun, e.bitBuffer[..e.be], e.bitBuffer[base..base + br],
          did)
    {
      var temp := absvalues[k];
      if temp == 0 {
        RefineZero(e, m, k - ss, r, run0, be0, e.eobrun, e.bitBuffer[..e.be], e.bitBuffer[base..base + br], did);
        r := r + 1;
      } else {
        ghost var more;
        ok, r, base, br, more := RefineCoef(e, m, k - ss, temp, block[order[k]] < 0, k <= eob, r, base, br, run0, be0,
            did);
        if !ok {
          return;
        }
        did := did + more;
      }
    }
    ghost var more;
    ok, more := FinishRefine(e, r, base, br, m, run0, be0, did);
    assert (old(e.log) + did) + more == old(e.log) + (did + more);
  }
}
