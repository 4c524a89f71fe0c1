// Reading progressive AC scans: what the bits mean for the blocks, and why they mean
// what was written.
module ProgRead {
  import opened Coefs
  import opened Division
  import opened Bytes
  import opened BitString
  import opened HuffGen
  import opened HuffCode
  import opened HuffBitReader
  import opened HuffTokens
  import opened HuffBlock
  import opened ProgTokens

  // ---- First scan --------------------------------------------------------------------------------------------------

  // One symbol: a coefficient after r zeros, sixteen zeros, or a run of blocks that
  // begins with this one.
  datatype FirstItem = NewCoef(r: nat, v: int) | Skip16 | Run(e: nat)

  function ReadFirstItem(t: HuffTbl, s: seq<bool>): Option<Parsed<FirstItem>>
    requires WellFormed(t)
  {
    match DecodeSym(t, s)
    case None => None
    case Some(Decoded(sym, s1)) =>
      var r, n := sym / 16, sym % 16;
      if n != 0 then
        match TakeBits(s1, n)
        case None => None
        case Some(Decoded(x, s2)) => Some(Parsed(NewCoef(r, Extend(x, n)), s2))
      else if r == 15 then Some(Parsed(Skip16, s1))
      else if r == 0 then Some(Parsed(Run(1), s1))
      else
        match TakeBits(s1, r)
        case None => None
        case Some(Decoded(x, s2)) => Some(Parsed(Run(Pow2(r) + x), s2))
  }

  // A coefficient for the k-th place of the band.
  datatype Found = Found(k: nat, v: int)

  // What a block reads as: what was found, and for how many more blocks the run lasts.
  datatype BandRead = BandRead(found: seq<Found>, run: nat)

  function AddFound(f: Found, p: Option<Parsed<BandRead>>): Option<Parsed<BandRead>> {
    match p
    case None => None
    case Some(Parsed(BandRead(fs, run), rest)) => Some(Parsed(BandRead([f] + fs, run), rest))
  }

  function ReadBand(t: HuffTbl, s: seq<bool>, n: nat, k: nat): Option<Parsed<BandRead>>
    requires WellFormed(t)
    decreases if k >= n then 0 else n - k
  {
    if k >= n then Some(Parsed(BandRead([], 0), s))
    else match ReadFirstItem(t, s)
      case None => None
      case Some(Parsed(NewCoef(r, v), rest)) => AddFound(Found(k + r, v), ReadBand(t, rest, n, k + r + 1))
      case Some(Parsed(Skip16, rest)) => ReadBand(t, rest, n, k + 16)
      case Some(Parsed(Run(e), rest)) => Some(Parsed(BandRead([], if e > 0 then e - 1 else 0), rest))
  }

  // A block when a run is still to last for e blocks.
  function ReadFirst(t: HuffTbl, s: seq<bool>, n: nat, e: nat): Option<Parsed<BandRead>>
    requires WellFormed(t)
  {
    if e > 0 then Some(Parsed(BandRead([], e - 1), s)) else ReadBand(t, s, n, 0)
  }

  // ---- First scan: reading what was written ------------------------------------------------------------------------

  function FoundIn(t: seq<int>, k: nat): (fs: seq<Found>)
    ensures forall i :: 0 <= i < |fs| ==> k <= fs[i].k < |t| && fs[i].v == t[fs[i].k] != 0
    decreases |t| - k
  {
    if k >= |t| then []
    else if t[k] == 0 then FoundIn(t, k + 1)
    else [Found(k, t[k])] + FoundIn(t, k + 1)
  }

  lemma {:induction false} RunRead(t: HuffTbl, c: Tables, tbl: nat, e: nat, tail: seq<bool>)
    requires GoodTables(c) && tbl < NUM_HUFF_TBLS && Paired(t, TableOf(c, false, tbl)) && 0 < e <= MAX_EOBRUN
    requires TokensCoded(c, EobTokens(tbl, e))
    ensures ReadFirstItem(t, BitsOf(c, EobTokens(tbl, e)) + tail) == Some(Parsed(Run(e), tail))
  {
    hide DecodeSym, Bin, Paired, GoodTables, BitsOf, BitLen, TakeBits;
    EobSize(e);
    var n := BitLen(e) - 1;
    assert TokenCoded(c, EobTokens(tbl, e)[0]);
    if n == 0 {
      BitLenBounds(e);
      assert Pow2(0) == 1 && Pow2(1) == 2;
      BitsOfOne(c, Sym(false, tbl, 0));
      TokenRead(t, c, false, tbl, 0, tail);
    } else {
      var sym, raw := Sym(false, tbl, 16 * n), Raw(e, n);
      SymbolAndRaw(c, sym, raw, tail);
      TokenRead(t, c, false, tbl, 16 * n, TokenBits(c, raw) + tail);
      LowPart(e, tail);
    }
  }

  // The bits below the leading one.
  lemma LowPart(e: nat, tail: seq<bool>)
    requires e > 0 && BitLen(e) > 1
    ensures var n := BitLen(e) - 1;
            e >= Pow2(n) && TakeBits(Bin(e, n) + tail, n) == Some(Decoded(e - Pow2(n), tail))
  {
    hide Bin, Num;
    var n := BitLen(e) - 1;
    BitLenBounds(e);
    var x := e - Pow2(n);
    DivIs(e, Pow2(n), 1, x);
    BinMod(e, n, n);
    NumBin(x, n);
    assert (Bin(e, n) + tail)[..n] == Bin(e, n) && (Bin(e, n) + tail)[n..] == tail;
  }

  lemma NewCoefRead(t: HuffTbl, c: Tables, tbl: nat, r: nat, v: int, tail: seq<bool>)
    requires GoodTables(c) && tbl < NUM_HUFF_TBLS && Paired(t, TableOf(c, false, tbl)) && v != 0 && AcInRange(v)
    requires r <= 15 && TokensCoded(c, NonzeroTokens(tbl, r, v))
    ensures ReadFirstItem(t, BitsOf(c, NonzeroTokens(tbl, r, v)) + tail) == Some(Parsed(NewCoef(r, v), tail))
  {
    hide DecodeSym, Bin, Paired, GoodTables, BitsOf, Extra, Extend, BitLen;
    var n := BitLen(Abs(v));
    var sym, raw := Sym(false, tbl, 16 * r + n), Raw(Extra(v), n);
    assert TokenCoded(c, NonzeroTokens(tbl, r, v)[0]);
    BitLenBounds(Abs(v));
    SymbolAndRaw(c, sym, raw, tail);
    TokenRead(t, c, false, tbl, 16 * r + n, TokenBits(c, raw) + tail);
    RawRead(v, tail);
  }

  lemma Skip16Read(t: HuffTbl, c: Tables, tbl: nat, tail: seq<bool>)
    requires GoodTables(c) && tbl < NUM_HUFF_TBLS && Paired(t, TableOf(c, false, tbl))
        && TokenCoded(c, Sym(false, tbl, ZRL))
    ensures ReadFirstItem(t, TokenBits(c, Sym(false, tbl, ZRL)) + tail) == Some(Parsed(Skip16, tail))
  {
    hide DecodeSym, Bin, Paired, GoodTables;
    TokenRead(t, c, false, tbl, ZRL, tail);
  }

  // A run of zeros and the coefficient that ends it.
  lemma {:induction false} NonzeroReadFirst(t: HuffTbl, c: Tables, tbl: nat, r: nat, v: int, tail: seq<bool>, k: nat,
      n: nat)
    requires GoodTables(c) && tbl < NUM_HUFF_TBLS && Paired(t, TableOf(c, false, tbl)) && v != 0 && AcInRange(v)
        && r <= k < n
    requires TokensCoded(c, NonzeroTokens(tbl, r, v))
    ensures ReadBand(t, BitsOf(c, NonzeroTokens(tbl, r, v)) + tail, n, k - r)
        == AddFound(Found(k, v), ReadBand(t, tail, n, k + 1))
    decreases r
  {
    hide ReadFirstItem, Paired, GoodTables, BitsOf, TokenBits;
    if r > 15 {
      var zrl, more := Sym(false, tbl, ZRL), NonzeroTokens(tbl, r - 16, v);
      assert TokenCoded(c, NonzeroTokens(tbl, r, v)[0]);
      SplitCoded(c, [zrl], more);
      BitsOfCons(c, zrl, more);
      assert BitsOf(c, [zrl] + more) + tail == TokenBits(c, zrl) + (BitsOf(c, more) + tail);
      Skip16Read(t, c, tbl, BitsOf(c, more) + tail);
      NonzeroReadFirst(t, c, tbl, r - 16, v, tail, k, n);
    } else {
      NewCoefRead(t, c, tbl, r, v, tail);
    }
  }

  function PrependFound(fs: seq<Found>, p: Option<Parsed<BandRead>>): Option<Parsed<BandRead>> {
    match p
    case None => None
    case Some(Parsed(BandRead(gs, run), rest)) => Some(Parsed(BandRead(fs + gs, run), rest))
  }

  // Where reading goes on after the coefficients: behind the last nonzero one.
  function ZerosFrom(t: seq<int>): (k: nat)
    ensures k <= |t|
    ensures forall i :: k <= i < |t| ==> t[i] == 0
    ensures k > 0 ==> t[k - 1] != 0
  {
    if t == [] then 0 else if t[|t| - 1] != 0 then |t| else ZerosFrom(t[..|t| - 1])
  }

  // Where reading stands after the coefficients from k on have been read: r zeros had gone
  // before.
  function GotTo(b: seq<int>, k: nat, r: nat): (p: nat)
    requires r <= k
  {
    if ZerosFrom(b) > k then ZerosFrom(b) else k - r
  }

  lemma {:induction false} CoefsRead(t: HuffTbl, c: Tables, tbl: nat, b: seq<int>, k: nat, r: nat, tail: seq<bool>)
    requires GoodTables(c) && tbl < NUM_HUFF_TBLS && Paired(t, TableOf(c, false, tbl)) && BandInRange(b)
        && r <= k <= |b|
    requires forall i :: k - r <= i < k ==> b[i] == 0
    requires TokensCoded(c, CoefTokens(tbl, b, k, r))
    ensures ReadBand(t, BitsOf(c, CoefTokens(tbl, b, k, r)) + tail, |b|, k - r)
            == PrependFound(FoundIn(b, k), ReadBand(t, tail, |b|, GotTo(b, k, r)))
    decreases |b| - k
  {
    hide ReadBand, Paired, GoodTables, BitsOf, NonzeroTokens, TokenCoded, WellFormed, ZerosFrom;
    PairedWell(t, TableOf(c, false, tbl));
    if k >= |b| {
      NoBits(c, tail);
      PrependNone(ReadBand(t, tail, |b|, k - r));
    } else if b[k] == 0 {
      ZeroPassed(b, k, r);
      CoefsRead(t, c, tbl, b, k + 1, r + 1, tail);
    } else {
      var head, more := NonzeroTokens(tbl, r, b[k]), CoefTokens(tbl, b, k + 1, 0);
      SplitCoded(c, head, more);
      CoefsRead(t, c, tbl, b, k + 1, 0, tail);
      OneCoefRead(t, c, tbl, b, k, r, tail);
    }
  }

  lemma ZeroPassed(b: seq<int>, k: nat, r: nat)
    requires r <= k < |b| && b[k] == 0
    ensures GotTo(b, k + 1, r + 1) == GotTo(b, k, r)
  {
  }

  // A nonzero coefficient in front of those that have been read.
  lemma OneCoefRead(t: HuffTbl, c: Tables, tbl: nat, b: seq<int>, k: nat, r: nat, tail: seq<bool>)
    requires GoodTables(c) && tbl < NUM_HUFF_TBLS && Paired(t, TableOf(c, false, tbl)) && BandInRange(b) && r <= k < |b|
        && b[k] != 0
    requires TokensCoded(c, NonzeroTokens(tbl, r, b[k])) && WellFormed(t)
    requires ReadBand(t, BitsOf(c, CoefTokens(tbl, b, k + 1, 0)) + tail, |b|, k + 1)
             == PrependFound(FoundIn(b, k + 1), ReadBand(t, tail, |b|, GotTo(b, k + 1, 0)))
    ensures ReadBand(t, BitsOf(c, CoefTokens(tbl, b, k, r)) + tail, |b|, k - r)
            == PrependFound(FoundIn(b, k), ReadBand(t, tail, |b|, GotTo(b, k, r)))
  {
    hide ReadBand, Paired, GoodTables, BitsOf, NonzeroTokens, TokenCoded, WellFormed;
    var head, more := NonzeroTokens(tbl, r, b[k]), CoefTokens(tbl, b, k + 1, 0);
    BitsOfConcat(c, head, more);
    assert BitsOf(c, head + more) + tail == BitsOf(c, head) + (BitsOf(c, more) + tail);
    NonzeroReadFirst(t, c, tbl, r, b[k], BitsOf(c, more) + tail, k, |b|);
    AddPrepend(Found(k, b[k]), FoundIn(b, k + 1), ReadBand(t, tail, |b|, GotTo(b, k + 1, 0)));
    assert ZerosFrom(b) > k;
  }

  lemma NoBits(c: Tables, tail: seq<bool>)
    requires GoodTables(c)
    ensures BitsOf(c, []) + tail == tail
  {
    assert [] + tail == tail;
  }

  lemma PrependNone(p: Option<Parsed<BandRead>>)
    ensures PrependFound([], p) == p
  {
    if p.Some? { assert [] + p.value.value.found == p.value.value.found; }
  }

  lemma AddPrepend(f: Found, fs: seq<Found>, p: Option<Parsed<BandRead>>)
    ensures AddFound(f, PrependFound(fs, p)) == PrependFound([f] + fs, p)
  {
    if p.Some? { assert [f] + (fs + p.value.value.found) == ([f] + fs) + p.value.value.found; }
  }

  // ---- First scan: a whole interval --------------------------------------------------------------------------------

  // Block after block the bits give what is in the bands, until only tail is left.
  predicate ReadsFirst(t: HuffTbl, s: seq<bool>, e: nat, ts: seq<seq<int>>, n: nat, tail: seq<bool>)
    requires WellFormed(t)
    decreases |ts|
  {
    if ts == [] then e == 0 && s == tail
    else
      match ReadFirst(t, s, n, e)
      case None => false
      case Some(Parsed(BandRead(found, run), rest)) =>
          found == FoundIn(ts[0], 0)
          && ReadsFirst(t, rest, run, ts[1..], n, tail)
  }

  // When e blocks are waiting the bits begin with the run they belong to.
  ghost predicate RunAhead(c: Tables, tbl: nat, s: seq<bool>, e: nat, run: nat, s': seq<bool>)
    requires GoodTables(c) && tbl < NUM_HUFF_TBLS
  {
    if e == 0 then run == 0 && s' == s
    else e <= run <= MAX_EOBRUN && TokensCoded(c, EobTokens(tbl, run)) && s == BitsOf(c, EobTokens(tbl, run)) + s'
  }

  lemma {:induction false} NothingFound(t: seq<int>, k: nat)
    requires forall i :: k <= i < |t| ==> t[i] == 0
    ensures FoundIn(t, k) == []
    decreases |t| - k
  {
    if k < |t| { NothingFound(t, k + 1); }
  }

  // A block with coefficients of its own.
  lemma BodyRead(t: HuffTbl, c: Tables, tbl: nat, b: seq<int>, tail: seq<bool>)
    requires GoodTables(c) && tbl < NUM_HUFF_TBLS && Paired(t, TableOf(c, false, tbl)) && BandInRange(b)
    requires TokensCoded(c, CoefTokens(tbl, b, 0, 0))
    ensures WellFormed(t)
    ensures ReadBand(t, BitsOf(c, CoefTokens(tbl, b, 0, 0)) + tail, |b|, 0)
            == PrependFound(FoundIn(b, 0), ReadBand(t, tail, |b|, ZerosFrom(b)))
  {
    hide ReadBand, CoefTokens, Paired, GoodTables;
    PairedWell(t, TableOf(c, false, tbl));
    CoefsRead(t, c, tbl, b, 0, 0, tail);
  }

  // What follows the coefficients of a block: nothing, or the run it begins.
  lemma AfterBody(t: HuffTbl, c: Tables, tbl: nat, b: seq<int>, run: nat, s: seq<bool>, tail: seq<bool>)
    requires GoodTables(c) && tbl < NUM_HUFF_TBLS && Paired(t, TableOf(c, false, tbl)) && b != []
    requires RunAhead(c, tbl, s, if b[|b| - 1] == 0 then 1 else 0, run, tail)
    ensures WellFormed(t)
    ensures ReadBand(t, s, |b|, ZerosFrom(b)) == Some(Parsed(BandRead([], if run > 0 then run - 1 else 0), tail))
  {
    hide Paired, GoodTables, BitsOf, ReadFirstItem, EobTokens;
    PairedWell(t, TableOf(c, false, tbl));
    if b[|b| - 1] == 0 {
      RunRead(t, c, tbl, run, tail);
    }
  }

  lemma AllZeroMeans(b: seq<int>)
    ensures AllZero(b) <==> ZerosFrom(b) == 0
  {
  }

  // The heart of the matter: wherever blocks are waiting, the bits still to be written
  // begin with the run they will be part of, and reading on from there gives the bands.
  lemma {:induction false} IntervalRead(t: HuffTbl, c: Tables, tbl: nat, ts: seq<seq<int>>, n: nat, e: nat,
      tail: seq<bool>)
    returns (run: nat, rest: seq<bool>)
    requires GoodTables(c) && tbl < NUM_HUFF_TBLS && Paired(t, TableOf(c, false, tbl)) && n > 0 && BandsInRange(ts, n)
        && e < MAX_EOBRUN
    requires TokensCoded(c, ScanFirst(tbl, ts, n, e))
    ensures WellFormed(t)
    ensures RunAhead(c, tbl, BitsOf(c, ScanFirst(tbl, ts, n, e)) + tail, e, run, rest)
    ensures run >= e && ReadsFirst(t, rest, run - e, ts, n, tail)
    decreases |ts|
  {
    hide Paired, GoodTables, BitsOf, StepFirst, ReadBand, TokenCoded, WellFormed, EobTokens;
    PairedWell(t, TableOf(c, false, tbl));
    if ts == [] {
      NoRun(c, tbl, e, tail);
      return e, tail;
    }
    var st := StepFirst(tbl, ts[0], e);
    var more := ScanFirst(tbl, ts[1..], n, st.run);
    SplitCoded(c, st.toks, more);
    BitsOfConcat(c, st.toks, more);
    var run', rest' := IntervalRead(t, c, tbl, ts[1..], n, st.run, tail);
    var s' := BitsOf(c, more) + tail;
    assert BitsOf(c, st.toks + more) + tail == BitsOf(c, st.toks) + s';
    run, rest := OneBlock(t, c, tbl, ts[0], e, s', run', rest');
  }

  lemma NoRun(c: Tables, tbl: nat, e: nat, tail: seq<bool>)
    requires GoodTables(c) && tbl < NUM_HUFF_TBLS && e < MAX_EOBRUN && TokensCoded(c, EobTokens(tbl, e))
    ensures RunAhead(c, tbl, BitsOf(c, EobTokens(tbl, e)) + tail, e, e, tail)
  {
    assert [] + tail == tail;
  }

  // One block in front of bits that are understood.
  lemma OneBlock(t: HuffTbl, c: Tables, tbl: nat, b: seq<int>, e: nat, s': seq<bool>, run': nat, rest': seq<bool>)
      returns (run: nat, rest: seq<bool>)
    requires GoodTables(c) && tbl < NUM_HUFF_TBLS && Paired(t, TableOf(c, false, tbl)) && b != [] && BandInRange(b)
        && e < MAX_EOBRUN
    requires var st := StepFirst(tbl, b, e); TokensCoded(c, st.toks) && RunAhead(c, tbl, s', st.run, run', rest')
    ensures var st := StepFirst(tbl, b, e);
            && WellFormed(t)
            && RunAhead(c, tbl, BitsOf(c, st.toks) + s', e, run, rest) && run >= e
            && run' >= st.run && ReadFirst(t, rest, |b|, run - e)
                == Some(Parsed(BandRead(FoundIn(b, 0), run' - st.run), rest'))
  {
    hide Paired, GoodTables, BitsOf, ReadBand, TokenCoded, WellFormed, EobTokens, CoefTokens;
    PairedWell(t, TableOf(c, false, tbl));
    AllZeroMeans(b);
    if AllZero(b) {
      NothingFound(b, 0);
      run, rest := WaitingBlock(t, c, tbl, b, e, s', run', rest');
    } else {
      run, rest := NewBlock(t, c, tbl, b, e, s', run', rest');
    }
  }

  // A block without coefficients joins the run, or starts one.
  lemma WaitingBlock(t: HuffTbl, c: Tables, tbl: nat, b: seq<int>, e: nat, s': seq<bool>, run': nat, rest': seq<bool>)
      returns (run: nat, rest: seq<bool>)
    requires GoodTables(c) && tbl < NUM_HUFF_TBLS && Paired(t, TableOf(c, false, tbl)) && b != [] && BandInRange(b)
        && e < MAX_EOBRUN
    requires AllZero(b) && ZerosFrom(b) == 0
    requires var st := StepFirst(tbl, b, e); TokensCoded(c, st.toks) && RunAhead(c, tbl, s', st.run, run', rest')
    ensures var st := StepFirst(tbl, b, e);
            && WellFormed(t)
            && RunAhead(c, tbl, BitsOf(c, st.toks) + s', e, run, rest) && run >= e
            && run' >= st.run && ReadFirst(t, rest, |b|, run - e) == Some(Parsed(BandRead([], run' - st.run), rest'))
  {
    hide Paired, GoodTables, BitsOf, ReadBand, TokenCoded, WellFormed, EobTokens, CoefTokens;
    PairedWell(t, TableOf(c, false, tbl));
    var st := StepFirst(tbl, b, e);
    if e + 1 == MAX_EOBRUN {
      assert [] + EobTokens(tbl, MAX_EOBRUN) == EobTokens(tbl, MAX_EOBRUN);
      run, rest := MAX_EOBRUN, s';
    } else {
      NoBits(c, s');
      if e > 0 {
        run, rest := run', rest';
      } else {
        AfterBody(t, c, tbl, b, run', s', rest');
        run, rest := 0, s';
      }
    }
  }

  // A block with coefficients ends the run that was waiting.
  lemma NewBlock(t: HuffTbl, c: Tables, tbl: nat, b: seq<int>, e: nat, s': seq<bool>, run': nat, rest': seq<bool>)
      returns (run: nat, rest: seq<bool>)
    requires GoodTables(c) && tbl < NUM_HUFF_TBLS && Paired(t, TableOf(c, false, tbl)) && b != [] && BandInRange(b)
        && e < MAX_EOBRUN
    requires !AllZero(b)
    requires var st := StepFirst(tbl, b, e); TokensCoded(c, st.toks) && RunAhead(c, tbl, s', st.run, run', rest')
    ensures var st := StepFirst(tbl, b, e);
            && WellFormed(t)
            && RunAhead(c, tbl, BitsOf(c, st.toks) + s', e, run, rest) && run >= e
            && run' >= st.run && ReadFirst(t, rest, |b|, run - e)
                == Some(Parsed(BandRead(FoundIn(b, 0), run' - st.run), rest'))
  {
    hide Paired, GoodTables, BitsOf, ReadBand, TokenCoded, WellFormed, EobTokens, CoefTokens;
    PairedWell(t, TableOf(c, false, tbl));
    var head, body := EobTokens(tbl, e), CoefTokens(tbl, b, 0, 0);
    SplitCoded(c, head, body);
    BitsOfConcat(c, head, body);
    run, rest := e, BitsOf(c, body) + s';
    assert BitsOf(c, head + body) + s' == BitsOf(c, head) + rest;
    NoRun(c, tbl, e, rest);
    BodyRead(t, c, tbl, b, s');
    AfterBody(t, c, tbl, b, run', s', rest');
    assert FoundIn(b, 0) + [] == FoundIn(b, 0);
  }

}
