// Reading progressive AC refinement scans: correction bits for what is known, new
// coefficients among the zeros, and runs of blocks without new ones.
module ProgRefine {
  import opened Bytes
  import opened BitString
  import opened HuffGen
  import opened HuffCode
  import opened HuffBitReader
  import opened HuffTokens
  import opened HuffBlock
  import opened ProgTokens
  import ProgRead

  // ---- What a refinement block reads as ----------------------------------------------------------------------------

  // A correction bit for the known coefficient at place k, or a new one there.
  datatype Change = Correct(k: nat, bit: bool) | New(k: nat, neg: bool)

  datatype RefineItem = NewOne(r: nat, neg: bool) | Zeros16 | EndRun(e: nat)

  function ReadRefineItem(t: HuffTbl, s: seq<bool>): Option<Parsed<RefineItem>>
    requires WellFormed(t)
  {
    match DecodeSym(t, s)
    case None => None
    case Some(Decoded(sym, s1)) =>
      var r, n := sym / 16, sym % 16;
      if n != 0 then
        match TakeBits(s1, 1)
        case None => None
        case Some(Decoded(x, s2)) => Some(Parsed(NewOne(r, x == 0), s2))
      else if r == 15 then Some(Parsed(Zeros16, s1))
      else if r == 0 then Some(Parsed(EndRun(1), s1))
      else
        match TakeBits(s1, r)
        case None => None
        case Some(Decoded(x, s2)) => Some(Parsed(EndRun(Pow2(r) + x), s2))
  }

  datatype Walk = Walk(evs: seq<Change>, k: nat, rest: seq<bool>)

  function AddToWalk(e: Change, w: Option<Walk>): Option<Walk> {
    match w
    case None => None
    case Some(Walk(evs, k, rest)) => Some(Walk([e] + evs, k, rest))
  }

  // From place k on past r zeros and the known coefficients among them, each of which
  // takes its correction bit. nz tells which coefficients are known.
  function Pass(s: seq<bool>, nz: seq<bool>, k: nat, r: nat): (w: Option<Walk>)
    ensures w.Some? ==> k <= w.value.k && (w.value.k <= |nz| || w.value.k == k)
    decreases |nz| - k
  {
    if k >= |nz| then Some(Walk([], k, s))
    else if nz[k] then
      match TakeBits(s, 1)
      case None => None
      case Some(Decoded(x, rest)) => AddToWalk(Correct(k, x == 1), Pass(rest, nz, k + 1, r))
    else if r == 0 then Some(Walk([], k, s))
    else Pass(s, nz, k + 1, r - 1)
  }

  // From place k on to the end of the band.
  function PassAll(s: seq<bool>, nz: seq<bool>, k: nat): (w: Option<Walk>)
    decreases |nz| - k
  {
    if k >= |nz| then Some(Walk([], k, s))
    else if nz[k] then
      match TakeBits(s, 1)
      case None => None
      case Some(Decoded(x, rest)) => AddToWalk(Correct(k, x == 1), PassAll(rest, nz, k + 1))
    else PassAll(s, nz, k + 1)
  }

  datatype RefineRead = RefineRead(evs: seq<Change>, run: nat)

  function PrependEvs(evs: seq<Change>, p: Option<Parsed<RefineRead>>): Option<Parsed<RefineRead>> {
    match p
    case None => None
    case Some(Parsed(RefineRead(more, run), rest)) => Some(Parsed(RefineRead(evs + more, run), rest))
  }

  function WalkOnly(w: Option<Walk>, run: nat): Option<Parsed<RefineRead>> {
    match w
    case None => None
    case Some(Walk(evs, _, rest)) => Some(Parsed(RefineRead(evs, run), rest))
  }

  // A run of zeros that leads out of the band is taken for corrupt data.
  function ReadPlaces(t: HuffTbl, s: seq<bool>, nz: seq<bool>, k: nat): Option<Parsed<RefineRead>>
    requires WellFormed(t)
    decreases if k >= |nz| then 0 else |nz| - k
  {
    if k >= |nz| then Some(Parsed(RefineRead([], 0), s))
    else match ReadRefineItem(t, s)
      case None => None
      case Some(Parsed(EndRun(e), s1)) => WalkOnly(PassAll(s1, nz, k), if e > 0 then e - 1 else 0)
      case Some(Parsed(Zeros16, s1)) =>
        (match Pass(s1, nz, k, 15)
         case None => None
         case Some(Walk(evs, k', s2)) => PrependEvs(evs, ReadPlaces(t, s2, nz, k' + 1)))
      case Some(Parsed(NewOne(r, neg), s1)) =>
        (match Pass(s1, nz, k, r)
         case None => None
         case Some(Walk(evs, k', s2)) =>
           if k' >= |nz| then None else PrependEvs(evs + [New(k', neg)], ReadPlaces(t, s2, nz, k' + 1)))
  }

  // A block when a run is still to last for e blocks.
  function ReadRefine(t: HuffTbl, s: seq<bool>, nz: seq<bool>, e: nat): Option<Parsed<RefineRead>>
    requires WellFormed(t)
  {
    if e > 0 then WalkOnly(PassAll(s, nz, 0), e - 1) else ReadPlaces(t, s, nz, 0)
  }

  // ---- Reading what was written ------------------------------------------------------------------------------------

  function Known(m: seq<Mag>): (nz: seq<bool>)
    ensures |nz| == |m| && forall k :: 0 <= k < |m| ==> nz[k] == (m[k].abs > 1)
  {
    seq(|m|, k requires 0 <= k < |m| => m[k].abs > 1)
  }

  // What there is to tell about the coefficients from i up to j.
  function ChangesIn(m: seq<Mag>, i: nat, j: nat): seq<Change>
    requires i <= j <= |m|
    decreases j - i
  {
    if i == j then []
    else if m[i].abs == 0 then ChangesIn(m, i + 1, j)
    else if m[i].abs == 1 then [New(i, m[i].neg)] + ChangesIn(m, i + 1, j)
    else [Correct(i, m[i].abs % 2 == 1)] + ChangesIn(m, i + 1, j)
  }

  lemma {:induction false} ChangesSplit(m: seq<Mag>, i: nat, j: nat, k: nat)
    requires i <= j <= k <= |m|
    ensures ChangesIn(m, i, k) == ChangesIn(m, i, j) + ChangesIn(m, j, k)
    decreases j - i
  {
    if i < j { ChangesSplit(m, i + 1, j, k); }
  }

  // The correction bits of the known coefficients from i up to j, and how many zeros
  // there are.
  function CorrectionsIn(m: seq<Mag>, i: nat, j: nat): seq<bool>
    requires i <= j <= |m|
    decreases j - i
  {
    if i == j then [] else if m[i].abs > 1 then [m[i].abs % 2 == 1] + CorrectionsIn(m, i + 1, j)
        else CorrectionsIn(m, i + 1, j)
  }

  function ZerosIn(m: seq<Mag>, i: nat, j: nat): nat
    requires i <= j <= |m|
    decreases j - i
  {
    if i == j then 0 else ZerosIn(m, i + 1, j) + if m[i].abs == 0 then 1 else 0
  }

  predicate NoneNew(m: seq<Mag>, i: nat, j: nat)
    requires i <= j <= |m|
  {
    forall k :: i <= k < j ==> m[k].abs != 1
  }

  lemma BitTaken(b: bool, s: seq<bool>)
    ensures TakeBits([b] + s, 1) == Some(Decoded(Bit(b), s))
  {
    assert ([b] + s)[..1] == [b] && ([b] + s)[1..] == s;
    assert [b][..0] == [];
    assert Num([b]) == 2 * Num([b][..0]) + Bit(b);
  }

  lemma PassOver(s: seq<bool>, nz: seq<bool>, k: nat, r: nat)
    ensures k < |nz| && !nz[k] && r == 0 ==> Pass(s, nz, k, r) == Some(Walk([], k, s))
    ensures k < |nz| && !nz[k] && r > 0 ==> Pass(s, nz, k, r) == Pass(s, nz, k + 1, r - 1)
  {
  }

  lemma PassAllOver(s: seq<bool>, nz: seq<bool>, k: nat)
    ensures k >= |nz| ==> PassAll(s, nz, k) == Some(Walk([], k, s))
    ensures k < |nz| && !nz[k] ==> PassAll(s, nz, k) == PassAll(s, nz, k + 1)
  {
  }

  lemma PassKnown(b: bool, more: seq<bool>, nz: seq<bool>, k: nat, r: nat)
    requires k < |nz| && nz[k]
    ensures Pass([b] + more, nz, k, r) == AddToWalk(Correct(k, b), Pass(more, nz, k + 1, r))
    ensures PassAll([b] + more, nz, k) == AddToWalk(Correct(k, b), PassAll(more, nz, k + 1))
  {
    hide TakeBits, Bit;
    BitTaken(b, more);
    BitValue(b);
  }

  // Passing r zeros with the right correction bits leads to the place behind them.
  lemma {:induction false} PassRead(m: seq<Mag>, i: nat, j: nat, s: seq<bool>)
    requires i <= j < |m| && NoneNew(m, i, j) && m[j].abs <= 1
    ensures Pass(CorrectionsIn(m, i, j) + s, Known(m), i, ZerosIn(m, i, j)) == Some(Walk(ChangesIn(m, i, j), j, s))
    decreases j - i
  {
    hide Pass;
    PassOver(CorrectionsIn(m, i, j) + s, Known(m), i, ZerosIn(m, i, j));
    if i == j {
      assert [] + s == s;
    } else {
      PassRead(m, i + 1, j, s);
      if m[i].abs > 1 {
        var b, more := m[i].abs % 2 == 1, CorrectionsIn(m, i + 1, j) + s;
        assert CorrectionsIn(m, i, j) + s == [b] + more;
        PassKnown(b, more, Known(m), i, ZerosIn(m, i, j));
      }
    }
  }

  lemma BitValue(b: bool)
    ensures Bit(b) == 1 <==> b
    ensures Bit(b) == 0 <==> !b
  {
  }

  lemma {:induction false} PassAllRead(m: seq<Mag>, i: nat, s: seq<bool>)
    requires i <= |m| && NoneNew(m, i, |m|)
    ensures PassAll(Corrections(m, i) + s, Known(m), i) == Some(Walk(ChangesIn(m, i, |m|), |m|, s))
    decreases |m| - i
  {
    hide PassAll;
    PassAllOver(Corrections(m, i) + s, Known(m), i);
    if i == |m| {
      assert [] + s == s;
    } else {
      PassAllRead(m, i + 1, s);
      if m[i].abs > 1 {
        var b, more := m[i].abs % 2 == 1, Corrections(m, i + 1) + s;
        assert Corrections(m, i) + s == [b] + more;
        PassKnown(b, more, Known(m), i, 0);
      }
    }
  }

  lemma {:induction false} RawBitsRead(c: Tables, b: seq<bool>)
    requires GoodTables(c)
    ensures BitsOf(c, RawBits(b)) == b
    decreases |b|
  {
    hide GoodTables;
    if b != [] {
      var n := |b| - 1;
      RawBitsRead(c, b[..n]);
      assert RawBits(b)[..n] == RawBits(b[..n]);
      assert Bin(Bit(b[n]), 1) == [b[n]] by { OneBit(b[n]); }
      assert b == b[..n] + [b[n]];
    }
  }

  lemma OneBit(b: bool)
    ensures Bin(Bit(b), 1) == [b]
  {
    assert Bin(Bit(b), 1) == Bin(Bit(b) / 2, 0) + [Bit(b) % 2 == 1];
  }

  // ---- The items ---------------------------------------------------------------------------------------------------

  lemma NewOneRead(t: HuffTbl, c: Tables, tbl: nat, r: nat, neg: bool, br: seq<bool>, s: seq<bool>)
    requires GoodTables(c) && tbl < NUM_HUFF_TBLS && Paired(t, TableOf(c, false, tbl)) && r <= 15
    requires TokenCoded(c, Sym(false, tbl, 16 * r + 1))
    ensures ReadRefineItem(t, BitsOf(c, [Sym(false, tbl, 16 * r + 1), Raw(if neg then 0 else 1, 1)] + RawBits(br)) + s)
            == Some(Parsed(NewOne(r, neg), br + s))
  {
    hide DecodeSym, Paired, GoodTables, TokenBits, TakeBits, BitsOf;
    var sym, raw := Sym(false, tbl, 16 * r + 1), Raw(if neg then 0 else 1, 1);
    BitsOfConcat(c, [sym, raw], RawBits(br));
    RawBitsRead(c, br);
    SymbolAndRaw(c, sym, raw, br + s);
    assert BitsOf(c, [sym, raw] + RawBits(br)) + s == BitsOf(c, [sym, raw]) + (br + s);
    TokenRead(t, c, false, tbl, 16 * r + 1, TokenBits(c, raw) + (br + s));
    SignRead(c, neg, br + s);
  }

  lemma SignRead(c: Tables, neg: bool, s: seq<bool>)
    requires GoodTables(c)
    ensures TakeBits(TokenBits(c, Raw(if neg then 0 else 1, 1)) + s, 1) == Some(Decoded(if neg then 0 else 1, s))
  {
    OneBit(!neg);
    BitTaken(!neg, s);
  }

  lemma Zeros16Read(t: HuffTbl, c: Tables, tbl: nat, br: seq<bool>, s: seq<bool>)
    requires GoodTables(c) && tbl < NUM_HUFF_TBLS && Paired(t, TableOf(c, false, tbl))
        && TokenCoded(c, Sym(false, tbl, ZRL))
    ensures ReadRefineItem(t, BitsOf(c, [Sym(false, tbl, ZRL)] + RawBits(br)) + s) == Some(Parsed(Zeros16, br + s))
  {
    hide DecodeSym, Paired, GoodTables, TokenBits, BitsOf;
    var sym := Sym(false, tbl, ZRL);
    BitsOfCons(c, sym, RawBits(br));
    RawBitsRead(c, br);
    assert BitsOf(c, [sym] + RawBits(br)) + s == TokenBits(c, sym) + (br + s);
    TokenRead(t, c, false, tbl, ZRL, br + s);
  }

  lemma EndRunRead(t: HuffTbl, c: Tables, tbl: nat, e: nat, s: seq<bool>)
    requires GoodTables(c) && tbl < NUM_HUFF_TBLS && Paired(t, TableOf(c, false, tbl)) && 0 < e <= MAX_EOBRUN
    requires TokensCoded(c, EobTokens(tbl, e))
    ensures WellFormed(t) && ReadRefineItem(t, BitsOf(c, EobTokens(tbl, e)) + s) == Some(Parsed(EndRun(e), s))
  {
    hide DecodeSym, Bin, Paired, GoodTables, BitsOf;
    PairedWell(t, TableOf(c, false, tbl));
    ProgRead.RunRead(t, c, tbl, e, s);
    SameRun(t, BitsOf(c, EobTokens(tbl, e)) + s);
  }

  // The symbols for runs mean the same in both kinds of scan.
  lemma SameRun(t: HuffTbl, s: seq<bool>)
    requires WellFormed(t) && ProgRead.ReadFirstItem(t, s).Some? && ProgRead.ReadFirstItem(t, s).value.value.Run?
    ensures ReadRefineItem(t, s)
        == Some(Parsed(EndRun(ProgRead.ReadFirstItem(t, s).value.value.e), ProgRead.ReadFirstItem(t, s).value.rest))
  {
    hide DecodeSym, TakeBits;
  }

  // ---- The symbols up to the last new coefficient ------------------------------------------------------------------

  // The reader is at place i, the writer at place k: from i to j there are at most 15
  // zeros and the known coefficients whose correction bits are br, from j to k only zeros.
  predicate Behind(m: seq<Mag>, i: nat, j: nat, k: nat, r: nat, br: seq<bool>) {
    && i <= j <= k <= |m|
    && NoneNew(m, i, k) && ZerosIn(m, i, j) <= 15 && r == ZerosIn(m, i, j) + (k - j)
    && (forall x :: j <= x < k ==> m[x].abs == 0)
    && br == CorrectionsIn(m, i, j)
  }

  lemma {:induction false} ZerosStretch(m: seq<Mag>, i: nat, j: nat, k: nat)
    requires i <= j <= k <= |m| && forall x :: j <= x < k ==> m[x].abs == 0
    ensures ZerosIn(m, i, k) == ZerosIn(m, i, j) + (k - j) && CorrectionsIn(m, i, k) == CorrectionsIn(m, i, j)
    ensures ChangesIn(m, i, k) == ChangesIn(m, i, j)
    decreases k - i
  {
    if i < j {
      ZerosStretch(m, i + 1, j, k);
    } else if i < k {
      ZerosStretch(m, i + 1, i + 1, k);
    }
  }

  lemma {:induction false} OneMoreKnown(m: seq<Mag>, i: nat, k: nat)
    requires i <= k < |m| && m[k].abs > 1
    ensures ZerosIn(m, i, k + 1) == ZerosIn(m, i, k)
        && CorrectionsIn(m, i, k + 1) == CorrectionsIn(m, i, k) + [m[k].abs % 2 == 1]
    decreases k - i
  {
    if i < k { OneMoreKnown(m, i + 1, k); }
  }

  lemma EvsTwice(a: seq<Change>, b: seq<Change>, p: Option<Parsed<RefineRead>>)
    ensures PrependEvs(a, PrependEvs(b, p)) == PrependEvs(a + b, p)
  {
    if p.Some? { assert a + (b + p.value.value.evs) == (a + b) + p.value.value.evs; }
  }

  lemma EvsNone(p: Option<Parsed<RefineRead>>)
    ensures PrependEvs([], p) == p
  {
    if p.Some? { assert [] + p.value.value.evs == p.value.value.evs; }
  }

  lemma Sixteenth(m: seq<Mag>, i: nat, j: nat, k: nat, r: nat, br: seq<bool>) returns (z: nat)
    requires Behind(m, i, j, k, r, br) && r > 15
    ensures i <= z < k <= |m| && m[z].abs == 0 && NoneNew(m, i, z) && ZerosIn(m, i, z) == 15
        && br == CorrectionsIn(m, i, z)
    ensures ChangesIn(m, i, z + 1) == ChangesIn(m, i, z) && Behind(m, z + 1, z + 1, k, r - 16, [])
  {
    z := j + (15 - ZerosIn(m, i, j));
    ZerosStretch(m, i, j, z);
    ZerosStretch(m, i, z, z + 1);
  }

  // Sixteen zeros have gone by: the symbol for them, then the bits of the known
  // coefficients, all of which come before the sixteenth zero.
  lemma SkipStep(t: HuffTbl, c: Tables, tbl: nat, m: seq<Mag>, i: nat, j: nat, k: nat, r: nat, br: seq<bool>,
      s: seq<bool>) returns (z: nat)
    requires GoodTables(c) && tbl < NUM_HUFF_TBLS && Paired(t, TableOf(c, false, tbl))
        && TokenCoded(c, Sym(false, tbl, ZRL))
    requires Behind(m, i, j, k, r, br) && r > 15
    ensures WellFormed(t) && i <= z < k <= |m| && Behind(m, z + 1, z + 1, k, r - 16, [])
    ensures ReadPlaces(t, BitsOf(c, [Sym(false, tbl, ZRL)] + RawBits(br)) + s, Known(m), i)
            == PrependEvs(ChangesIn(m, i, z + 1), ReadPlaces(t, s, Known(m), z + 1))
  {
    hide Paired, GoodTables, BitsOf, ReadRefineItem, Behind, Pass, ChangesIn, WellFormed;
    PairedWell(t, TableOf(c, false, tbl));
    z := Sixteenth(m, i, j, k, r, br);
    Zeros16Read(t, c, tbl, br, s);
    PassRead(m, i, z, s);
  }

  lemma BehindMeans(m: seq<Mag>, i: nat, j: nat, k: nat, r: nat, br: seq<bool>)
    requires Behind(m, i, j, k, r, br)
    ensures i <= k <= |m| && NoneNew(m, i, k) && ZerosIn(m, i, k) == r && br == CorrectionsIn(m, i, k)
    ensures k < |m| && m[k].abs == 1 ==> ChangesIn(m, i, k + 1) == ChangesIn(m, i, k) + [New(k, m[k].neg)]
  {
    ZerosStretch(m, i, j, k);
    if k < |m| { ChangesSplit(m, i, k, k + 1); }
  }

  lemma NewStep(t: HuffTbl, c: Tables, tbl: nat, m: seq<Mag>, i: nat, j: nat, k: nat, r: nat, br: seq<bool>,
      s: seq<bool>)
    requires GoodTables(c) && tbl < NUM_HUFF_TBLS && Paired(t, TableOf(c, false, tbl)) && r <= 15
        && TokenCoded(c, Sym(false, tbl, 16 * r + 1))
    requires Behind(m, i, j, k, r, br) && k < |m| && m[k].abs == 1
    ensures WellFormed(t) && i <= k
    ensures ReadPlaces(t, BitsOf(c, [Sym(false, tbl, 16 * r + 1), Raw(if m[k].neg then 0 else 1, 1)] + RawBits(br)) + s,
        Known(m), i)
            == PrependEvs(ChangesIn(m, i, k + 1), ReadPlaces(t, s, Known(m), k + 1))
  {
    hide Paired, GoodTables, BitsOf, ReadRefineItem, Pass, WellFormed, ChangesIn, Behind, ZerosIn;
    PairedWell(t, TableOf(c, false, tbl));
    BehindMeans(m, i, j, k, r, br);
    NewOneRead(t, c, tbl, r, m[k].neg, br, s);
    PassRead(m, i, k, s);
  }

  lemma BehindZero(m: seq<Mag>, i: nat, j: nat, k: nat, r: nat, br: seq<bool>)
    requires Behind(m, i, j, k, r, br) && k < |m| && m[k].abs == 0
    ensures Behind(m, i, j, k + 1, r + 1, br)
  {
  }

  lemma BehindKnown(m: seq<Mag>, i: nat, j: nat, k: nat, r: nat, br: seq<bool>)
    requires Behind(m, i, j, k, r, br) && k < |m| && m[k].abs > 1 && r <= 15
    ensures Behind(m, i, k + 1, k + 1, r, br + [m[k].abs % 2 == 1])
  {
    ZerosStretch(m, i, j, k);
    OneMoreKnown(m, i, k);
  }

  lemma BehindStart(m: seq<Mag>, k: nat)
    requires k <= |m|
    ensures Behind(m, k, k, k, 0, [])
  {
  }

  lemma BehindOrder(m: seq<Mag>, i: nat, j: nat, k: nat, r: nat, br: seq<bool>)
    requires Behind(m, i, j, k, r, br)
    ensures i <= j <= k <= |m|
  {
  }

  // Reading takes back the symbols up to the last new coefficient.
  lemma {:induction false} SymbolsRead(t: HuffTbl, c: Tables, tbl: nat, m: seq<Mag>, i: nat, j: nat, k: nat, r: nat,
      br: seq<bool>, s: seq<bool>)
    requires GoodTables(c) && tbl < NUM_HUFF_TBLS && Paired(t, TableOf(c, false, tbl))
        && TokensCoded(c, RefineTokens(tbl, m, k, r, br))
    requires Behind(m, i, j, k, r, br) && (k < NewEnd(m) || i == k == NewEnd(m))
    ensures WellFormed(t) && i <= NewEnd(m)
    ensures ReadPlaces(t, BitsOf(c, RefineTokens(tbl, m, k, r, br)) + s, Known(m), i)
            == PrependEvs(ChangesIn(m, i, NewEnd(m)), ReadPlaces(t, s, Known(m), NewEnd(m)))
    decreases |m| - k, r
  {
    hide Paired, GoodTables, BitsOf, ReadPlaces, TokenCoded, ChangesIn, RawBits, Behind, WellFormed, NewEnd;
    PairedWell(t, TableOf(c, false, tbl));
    BehindOrder(m, i, j, k, r, br);
    var end := NewEnd(m);
    if k >= end {
      ProgRead.NoBits(c, s);
      NoChanges(m, end);
      EvsNone(ReadPlaces(t, s, Known(m), end));
    } else if m[k].abs == 0 {
      BehindZero(m, i, j, k, r, br);
      SymbolsRead(t, c, tbl, m, i, j, k + 1, r + 1, br, s);
    } else if r > 15 {
      var head, more := [Sym(false, tbl, ZRL)] + RawBits(br), RefineTokens(tbl, m, k, r - 16, []);
      HeadCoded(c, head, more, s);
      var z := SkipStep(t, c, tbl, m, i, j, k, r, br, BitsOf(c, more) + s);
      SymbolsRead(t, c, tbl, m, z + 1, z + 1, k, r - 16, [], s);
      EvsTwice(ChangesIn(m, i, z + 1), ChangesIn(m, z + 1, end), ReadPlaces(t, s, Known(m), end));
      ChangesSplit(m, i, z + 1, end);
    } else if m[k].abs > 1 {
      BehindKnown(m, i, j, k, r, br);
      SymbolsRead(t, c, tbl, m, i, k + 1, k + 1, r, br + [m[k].abs % 2 == 1], s);
    } else {
      var head, more := [Sym(false, tbl, 16 * r + 1), Raw(if m[k].neg then 0 else 1, 1)] + RawBits(br),
          RefineTokens(tbl, m, k + 1, 0, []);
      HeadCoded(c, head, more, s);
      NewStep(t, c, tbl, m, i, j, k, r, br, BitsOf(c, more) + s);
      BehindStart(m, k + 1);
      SymbolsRead(t, c, tbl, m, k + 1, k + 1, k + 1, 0, [], s);
      EvsTwice(ChangesIn(m, i, k + 1), ChangesIn(m, k + 1, end), ReadPlaces(t, s, Known(m), end));
      ChangesSplit(m, i, k + 1, end);
    }
  }

  lemma NoChanges(m: seq<Mag>, i: nat)
    requires i <= |m|
    ensures ChangesIn(m, i, i) == []
  {
  }

  lemma HeadCoded(c: Tables, head: seq<Token>, more: seq<Token>, s: seq<bool>)
    requires GoodTables(c) && TokensOk(head) && TokensOk(more) && head != [] && TokensCoded(c, head + more)
    ensures TokensCoded(c, more) && TokenCoded(c, head[0])
    ensures BitsOf(c, head + more) + s == BitsOf(c, head) + (BitsOf(c, more) + s)
  {
    hide GoodTables, TokenOk, TokenCoded, BitsOf;
    SplitCoded(c, head, more);
    BitsOfConcat(c, head, more);
    assert BitsOf(c, head + more) + s == BitsOf(c, head) + (BitsOf(c, more) + s);
  }

  // ---- A whole interval --------------------------------------------------------------------------------------------

  predicate ReadsRefine(t: HuffTbl, s: seq<bool>, e: nat, ms: seq<seq<Mag>>, tail: seq<bool>)
    requires WellFormed(t)
    decreases |ms|
  {
    if ms == [] then e == 0 && s == tail
    else
      match ReadRefine(t, s, Known(ms[0]), e)
      case None => false
      case Some(Parsed(RefineRead(evs, run), rest)) =>
        evs == ChangesIn(ms[0], 0, |ms[0]|) && ReadsRefine(t, rest, run, ms[1..], tail)
  }

  // When e blocks are waiting the bits begin with the run they belong to and their
  // correction bits.
  ghost predicate RunAhead(c: Tables, tbl: nat, s: seq<bool>, e: nat, be: seq<bool>, run: nat, s': seq<bool>)
    requires GoodTables(c) && tbl < NUM_HUFF_TBLS
  {
    if e == 0 then run == 0 && s' == s
    else
      e <= run <= MAX_EOBRUN && TokensCoded(c, EobTokens(tbl, run))
      && s == BitsOf(c, EobTokens(tbl, run)) + (be + s')
  }

  lemma RunBits(c: Tables, tbl: nat, e: nat, be: seq<bool>, s: seq<bool>)
    requires GoodTables(c) && tbl < NUM_HUFF_TBLS && e <= MAX_EOBRUN && TokensCoded(c, RunTokens(tbl, e, be))
    ensures TokensCoded(c, EobTokens(tbl, e))
    ensures BitsOf(c, RunTokens(tbl, e, be)) + s == BitsOf(c, EobTokens(tbl, e)) + (be + s)
    ensures e == 0 && be == [] ==> BitsOf(c, RunTokens(tbl, e, be)) + s == s
  {
    hide GoodTables, BitsOf, EobTokens, TokenCoded;
    SplitCoded(c, EobTokens(tbl, e), RawBits(be));
    BitsOfConcat(c, EobTokens(tbl, e), RawBits(be));
    RawBitsRead(c, be);
    assert (BitsOf(c, EobTokens(tbl, e)) + be) + s == BitsOf(c, EobTokens(tbl, e)) + (be + s);
    if e == 0 && be == [] { EmptyRun(c, tbl, s); }
  }

  lemma EmptyRun(c: Tables, tbl: nat, s: seq<bool>)
    requires GoodTables(c) && tbl < NUM_HUFF_TBLS
    ensures BitsOf(c, EobTokens(tbl, 0)) + ([] + s) == s
  {
    assert [] + s == s;
  }

  // What follows the last new coefficient: nothing, or the run the block begins, with
  // its own correction bits in front.
  lemma AfterSymbols(t: HuffTbl, c: Tables, tbl: nat, m: seq<Mag>, run: nat, s: seq<bool>, rest: seq<bool>)
    requires GoodTables(c) && tbl < NUM_HUFF_TBLS && Paired(t, TableOf(c, false, tbl)) && NewEnd(m) < |m|
    requires run > 0 && RunAhead(c, tbl, s, 1, Corrections(m, NewEnd(m)), run, rest)
    ensures WellFormed(t)
    ensures ReadPlaces(t, s, Known(m), NewEnd(m))
        == Some(Parsed(RefineRead(ChangesIn(m, NewEnd(m), |m|), run - 1), rest))
  {
    hide Paired, GoodTables, BitsOf, ReadRefineItem, EobTokens, TokenCoded;
    EndRunRead(t, c, tbl, run, Corrections(m, NewEnd(m)) + rest);
    PassAllRead(m, NewEnd(m), rest);
  }

  predicate Understood(t: HuffTbl, s: seq<bool>, m: seq<Mag>, e: nat, run: nat, rest: seq<bool>)
    requires WellFormed(t)
  {
    ReadRefine(t, s, Known(m), e) == Some(Parsed(RefineRead(ChangesIn(m, 0, |m|), run), rest))
  }

  // A block without new coefficients while a run lasts: only its correction bits.
  lemma InRun(t: HuffTbl, m: seq<Mag>, e: nat, s: seq<bool>)
    requires WellFormed(t) && e > 0 && NewEnd(m) == 0
    ensures Understood(t, Corrections(m, 0) + s, m, e, e - 1, s)
  {
    hide WellFormed, ReadPlaces;
    PassAllRead(m, 0, s);
  }

  // A block without new coefficients joins the run, or starts one.
  lemma WaitingBlock(t: HuffTbl, c: Tables, tbl: nat, m: seq<Mag>, e: nat, be: seq<bool>, s': seq<bool>, run': nat,
      rest': seq<bool>)
    returns (run: nat, rest: seq<bool>)
    requires GoodTables(c) && tbl < NUM_HUFF_TBLS && Paired(t, TableOf(c, false, tbl)) && m != [] && e < MAX_EOBRUN
        && (e == 0 ==> be == [])
    requires NewEnd(m) == 0
    requires var st := StepRefine(tbl, m, e, be);
    TokensCoded(c, st.toks) && RunAhead(c, tbl, s', st.run, st.bits, run', rest')
    ensures var st := StepRefine(tbl, m, e, be);
            && WellFormed(t)
            && RunAhead(c, tbl, BitsOf(c, st.toks) + s', e, be, run, rest) && run >= e
            && run' >= st.run && Understood(t, rest, m, run - e, run' - st.run, rest')
  {
    hide Paired, GoodTables, BitsOf, ReadPlaces, TokenCoded, WellFormed, EobTokens, RunTokens, Understood;
    PairedWell(t, TableOf(c, false, tbl));
    var cor := Corrections(m, 0);
    var more := be + cor;
    var st := StepRefine(tbl, m, e, be);
    // the run that the block is in, and what comes after the correction bits
    var r, after := run', rest';
    var s := BitsOf(c, st.toks) + s';
    if MustFlush(e + 1, more) {
      assert [] + RunTokens(tbl, e + 1, more) == RunTokens(tbl, e + 1, more);
      RunBits(c, tbl, e + 1, more, s');
      r, after := e + 1, s';
    } else {
      ProgRead.NoBits(c, s');
    }
    assert more + after == be + (cor + after);
    InRun(t, m, r - e, after);
    if e > 0 {
      run, rest := r, cor + after;
    } else {
      assert [] + cor == cor;
      AfterSymbols(t, c, tbl, m, r, s, after);
      FromPlaces(t, s, m, r - 1, after);
      run, rest := 0, s;
    }
  }

  lemma FromPlaces(t: HuffTbl, s: seq<bool>, m: seq<Mag>, run: nat, rest: seq<bool>)
    requires WellFormed(t) && ReadPlaces(t, s, Known(m), 0) == Some(Parsed(RefineRead(ChangesIn(m, 0, |m|), run), rest))
    ensures Understood(t, s, m, 0, run, rest)
  {
  }

  // A block with new coefficients ends the run that was waiting.
  lemma NewBlock(t: HuffTbl, c: Tables, tbl: nat, m: seq<Mag>, e: nat, be: seq<bool>, s': seq<bool>, run': nat,
      rest': seq<bool>)
    returns (run: nat, rest: seq<bool>)
    requires GoodTables(c) && tbl < NUM_HUFF_TBLS && Paired(t, TableOf(c, false, tbl)) && m != [] && e < MAX_EOBRUN
        && (e == 0 ==> be == [])
    requires NewEnd(m) > 0
    requires var st := StepRefine(tbl, m, e, be);
    TokensCoded(c, st.toks) && RunAhead(c, tbl, s', st.run, st.bits, run', rest')
    ensures var st := StepRefine(tbl, m, e, be);
            && WellFormed(t)
            && RunAhead(c, tbl, BitsOf(c, st.toks) + s', e, be, run, rest) && run >= e
            && run' >= st.run && Understood(t, rest, m, run - e, run' - st.run, rest')
  {
    hide Paired, GoodTables, BitsOf, ReadPlaces, TokenCoded, WellFormed, EobTokens, RunTokens, Understood, RefineTokens;
    PairedWell(t, TableOf(c, false, tbl));
    var end, cor := NewEnd(m), Corrections(m, NewEnd(m));
    var head, body := RunTokens(tbl, e, be), RefineTokens(tbl, m, 0, 0, []);
    var st := StepRefine(tbl, m, e, be);
    assert [] + cor == cor;
    var last := if end < |m| && MustFlush(1, cor) then RunTokens(tbl, 1, cor) else [];
    assert st.toks == (head + body) + last;
    var s := BitsOf(c, last) + s';
    ThreeParts(c, head, body, last, s');
    run, rest := e, BitsOf(c, body) + s;
    RunBits(c, tbl, e, be, rest);
    BehindStart(m, 0);
    SymbolsRead(t, c, tbl, m, 0, 0, 0, 0, [], s);
    LastPart(t, c, tbl, m, s', run', rest');
    ChangesSplit(m, 0, end, |m|);
    FromPlaces(t, rest, m, run' - st.run, rest');
  }

  lemma ThreeParts(c: Tables, x: seq<Token>, y: seq<Token>, z: seq<Token>, s: seq<bool>)
    requires GoodTables(c) && TokensOk(x) && TokensOk(y) && TokensOk(z) && TokensCoded(c, (x + y) + z)
    ensures TokensCoded(c, x) && TokensCoded(c, y) && TokensCoded(c, z)
    ensures BitsOf(c, (x + y) + z) + s == BitsOf(c, x) + (BitsOf(c, y) + (BitsOf(c, z) + s))
  {
    hide GoodTables, TokenOk, TokenCoded, BitsOf;
    SplitCoded(c, x, y);
    SplitCoded(c, x + y, z);
    BitsOfConcat(c, x, y);
    BitsOfConcat(c, x + y, z);
    assert ((BitsOf(c, x) + BitsOf(c, y)) + BitsOf(c, z)) + s == BitsOf(c, x) + (BitsOf(c, y) + (BitsOf(c, z) + s));
  }

  // The part of the block behind its last new coefficient.
  lemma LastPart(t: HuffTbl, c: Tables, tbl: nat, m: seq<Mag>, s': seq<bool>, run': nat, rest': seq<bool>)
    requires GoodTables(c) && tbl < NUM_HUFF_TBLS && Paired(t, TableOf(c, false, tbl)) && m != []
    requires var end, cor := NewEnd(m), Corrections(m, NewEnd(m));
             var flush := end < |m| && MustFlush(1, cor);
             var last := if flush then RunTokens(tbl, 1, cor) else [];
             var waiting := if end < |m| && !flush then 1 else 0;
             TokensCoded(c, last) && RunAhead(c, tbl, s', waiting, if waiting > 0 then cor else [], run', rest')
    ensures WellFormed(t)
    ensures var end, cor := NewEnd(m), Corrections(m, NewEnd(m));
            var flush := end < |m| && MustFlush(1, cor);
            var last := if flush then RunTokens(tbl, 1, cor) else [];
            var waiting := if end < |m| && !flush then 1 else 0;
            && run' >= waiting
            && ReadPlaces(t, BitsOf(c, last) + s', Known(m), end)
               == Some(Parsed(RefineRead(ChangesIn(m, end, |m|), run' - waiting), rest'))
  {
    hide Paired, GoodTables, BitsOf, ReadRefineItem, TokenCoded, WellFormed, EobTokens, RunTokens, ReadPlaces;
    PairedWell(t, TableOf(c, false, tbl));
    var end, cor := NewEnd(m), Corrections(m, NewEnd(m));
    if end == |m| {
      ProgRead.NoBits(c, s');
      NoChanges(m, end);
      NoPlaces(t, s', m);
    } else if MustFlush(1, cor) {
      RunBits(c, tbl, 1, cor, s');
      AfterSymbols(t, c, tbl, m, 1, BitsOf(c, RunTokens(tbl, 1, cor)) + s', s');
    } else {
      ProgRead.NoBits(c, s');
      AfterSymbols(t, c, tbl, m, run', s', rest');
    }
  }

  lemma NoPlaces(t: HuffTbl, s: seq<bool>, m: seq<Mag>)
    requires WellFormed(t)
    ensures ReadPlaces(t, s, Known(m), |m|) == Some(Parsed(RefineRead([], 0), s))
  {
  }

  // Wherever blocks are waiting, the bits still to be written begin with the run they
  // will be part of and their correction bits, and reading on gives the blocks.
  lemma {:induction false} IntervalRead(t: HuffTbl, c: Tables, tbl: nat, ms: seq<seq<Mag>>, n: nat, e: nat,
      be: seq<bool>, tail: seq<bool>)
    returns (run: nat, rest: seq<bool>)
    requires GoodTables(c) && tbl < NUM_HUFF_TBLS && Paired(t, TableOf(c, false, tbl)) && n > 0 && BandsOf(ms, n)
    requires e < MAX_EOBRUN && (e == 0 ==> be == []) && TokensCoded(c, ScanRefine(tbl, ms, n, e, be))
    ensures WellFormed(t)
    ensures RunAhead(c, tbl, BitsOf(c, ScanRefine(tbl, ms, n, e, be)) + tail, e, be, run, rest)
    ensures run >= e && ReadsRefine(t, rest, run - e, ms, tail)
    decreases |ms|
  {
    hide Paired, GoodTables, BitsOf, StepRefine, ReadRefine, TokenCoded, WellFormed, RunTokens;
    PairedWell(t, TableOf(c, false, tbl));
    if ms == [] {
      RunBits(c, tbl, e, be, tail);
      return e, tail;
    }
    var st := StepRefine(tbl, ms[0], e, be);
    var more := ScanRefine(tbl, ms[1..], n, st.run, st.bits);
    SplitCoded(c, st.toks, more);
    BitsOfConcat(c, st.toks, more);
    var run', rest' := IntervalRead(t, c, tbl, ms[1..], n, st.run, st.bits, tail);
    var s' := BitsOf(c, more) + tail;
    assert BitsOf(c, st.toks + more) + tail == BitsOf(c, st.toks) + s';
    if NewEnd(ms[0]) == 0 {
      run, rest := WaitingBlock(t, c, tbl, ms[0], e, be, s', run', rest');
    } else {
      run, rest := NewBlock(t, c, tbl, ms[0], e, be, s', run', rest');
    }
  }
}
