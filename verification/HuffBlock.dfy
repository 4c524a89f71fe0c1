// Coding the coefficients of one block in a sequential Huffman scan: the symbols
// it takes, and what reading them back gives.
module HuffBlock {
  import opened Coefs
  import opened BitString
  import opened HuffGen
  import opened HuffCode
  import opened HuffBitReader
  import opened HuffTokens

  const MAX_COEF_BITS := 10
  const ZRL := 0xF0

  // ---- The symbols ------------------------------------------------------------------------------------------

  // The range of coefficients and DC differences that 8-bit samples lead to.
  predicate DcInRange(diff: int) { BitLen(Abs(diff)) <= MAX_COEF_BITS + 1 }

  predicate AcInRange(v: int) { BitLen(Abs(v)) <= MAX_COEF_BITS }

  predicate InRange(z: seq<int>, lastDc: int) {
    && 0 < |z| <= 64 && DcInRange(z[0] - lastDc)
    && forall k :: 1 <= k < |z| ==> AcInRange(z[k])
  }

  // Section F.1.2.1 of ITU-T T.81
  function DcTokens(tbl: nat, diff: int): (toks: seq<Token>)
    requires tbl < NUM_HUFF_TBLS && DcInRange(diff)
    ensures TokensOk(toks)
  {
    var n := BitLen(Abs(diff));
    if n == 0 then [Sym(true, tbl, 0)] else [Sym(true, tbl, n), Raw(Extra(diff), n)]
  }

  // A nonzero coefficient after r zeros.
  function NonzeroTokens(tbl: nat, r: nat, v: int): (toks: seq<Token>)
    requires tbl < NUM_HUFF_TBLS && v != 0 && AcInRange(v)
    ensures TokensOk(toks)
  {
    if r > 15 then [Sym(false, tbl, ZRL)] + NonzeroTokens(tbl, r - 16, v)
    else [Sym(false, tbl, 16 * r + BitLen(Abs(v))), Raw(Extra(v), BitLen(Abs(v)))]
  }

  // Section F.1.2.2: the coefficients from k on, r zeros having gone before.
  function AcTokens(tbl: nat, z: seq<int>, k: nat, r: nat): (toks: seq<Token>)
    requires tbl < NUM_HUFF_TBLS && forall i :: 1 <= i < |z| ==> AcInRange(z[i])
    requires 1 <= k
    ensures TokensOk(toks)
    decreases |z| - k
  {
    if k >= |z| then if r > 0 then [Sym(false, tbl, 0)] else []
    else if z[k] == 0 then AcTokens(tbl, z, k + 1, r + 1)
    else NonzeroTokens(tbl, r, z[k]) + AcTokens(tbl, z, k + 1, 0)
  }

  function BlockTokens(dcTbl: nat, acTbl: nat, z: seq<int>, lastDc: int): (toks: seq<Token>)
    requires dcTbl < NUM_HUFF_TBLS && acTbl < NUM_HUFF_TBLS && InRange(z, lastDc)
    ensures TokensOk(toks)
  {
    DcTokens(dcTbl, z[0] - lastDc) + AcTokens(acTbl, z, 1, 0)
  }

  // ---- Reading ------------------------------------------------------------------------------------------------

  datatype Parsed<T> = Parsed(value: T, rest: seq<bool>)

  // Section F.2.2.1
  function ReadDc(t: HuffTbl, s: seq<bool>): Option<Parsed<int>>
    requires WellFormed(t)
  {
    match DecodeSym(t, s)
    case None => None
    case Some(Decoded(n, s1)) =>
      if n == 0 then Some(Parsed(0, s1))
      else match TakeBits(s1, n)
        case None => None
        case Some(Decoded(x, s2)) => Some(Parsed(Extend(x, n), s2))
  }

  // One AC symbol with its extra bits: a coefficient after r zeros, sixteen zeros, or
  // the end of the block.
  datatype Item = Coef(r: nat, v: int) | SixteenZeros | EndOfBlock

  function ReadItem(t: HuffTbl, s: seq<bool>): (p: Option<Parsed<Item>>)
    requires WellFormed(t)
  {
    match DecodeSym(t, s)
    case None => None
    case Some(Decoded(sym, s1)) =>
      var r, n := sym / 16, sym % 16;
      if n != 0 then
        match TakeBits(s1, n)
        case None => None
        case Some(Decoded(x, s2)) => Some(Parsed(Coef(r, Extend(x, n)), s2))
      else Some(Parsed(if r == 15 then SixteenZeros else EndOfBlock, s1))
  }

  // A coefficient v for place k, read when the place had got to at.
  datatype Event = Event(at: nat, k: nat, v: int)

  function Prepend(e: seq<Event>, p: Option<Parsed<seq<Event>>>): Option<Parsed<seq<Event>>> {
    match p
    case None => None
    case Some(Parsed(es, rest)) => Some(Parsed(e + es, rest))
  }

  // Section F.2.2.2: the coefficients from place k to place se.
  function ReadAc(t: HuffTbl, s: seq<bool>, k: nat, se: nat): Option<Parsed<seq<Event>>>
    requires WellFormed(t)
    decreases if k > se then 0 else se + 1 - k
  {
    if k > se then Some(Parsed([], s))
    else match ReadItem(t, s)
      case None => None
      case Some(Parsed(Coef(r, v), rest)) => Prepend([Event(k, k + r, v)], ReadAc(t, rest, k + r + 1, se))
      case Some(Parsed(SixteenZeros, rest)) => ReadAc(t, rest, k + 16, se)
      case Some(Parsed(EndOfBlock, rest)) => Some(Parsed([], rest))
  }

  // ---- Reading what was written ------------------------------------------------------------------------------

  // The nonzero coefficients from k on, as the reader comes upon them.
  function EventsOf(z: seq<int>, k: nat, r: nat): (es: seq<Event>)
    requires r <= k
    ensures forall i :: 0 <= i < |es| ==> k <= es[i].k < |z| && es[i].at <= es[i].k && es[i].v == z[es[i].k] != 0
    decreases |z| - k
  {
    if k >= |z| then []
    else if z[k] == 0 then EventsOf(z, k + 1, r + 1)
    else [Event(k - r % 16, k, z[k])] + EventsOf(z, k + 1, 0)
  }

  lemma DcRead(t: HuffTbl, c: Tables, tbl: nat, diff: int, tail: seq<bool>)
    requires GoodTables(c) && tbl < NUM_HUFF_TBLS && Paired(t, TableOf(c, true, tbl)) && DcInRange(diff)
    requires TokensCoded(c, DcTokens(tbl, diff))
    ensures ReadDc(t, BitsOf(c, DcTokens(tbl, diff)) + tail) == Some(Parsed(diff, tail))
  {
    hide DecodeSym, Bin, Paired, GoodTables;
    var n := BitLen(Abs(diff));
    var sym, raw := Sym(true, tbl, n), Raw(Extra(diff), n);
    assert TokenCoded(c, DcTokens(tbl, diff)[0]);
    if n == 0 {
      BitsOfOne(c, sym);
      TokenRead(t, c, true, tbl, n, tail);
    } else {
      SymbolAndRaw(c, sym, raw, tail);
      TokenRead(t, c, true, tbl, n, TokenBits(c, raw) + tail);
      RawRead(diff, tail);
    }
  }

  lemma SymbolAndRaw(c: Tables, sym: Token, raw: Token, tail: seq<bool>)
    requires GoodTables(c) && TokenOk(sym) && TokenOk(raw)
    ensures BitsOf(c, [sym, raw]) + tail == TokenBits(c, sym) + (TokenBits(c, raw) + tail)
  {
    hide TokenBits, TokenOk, GoodTables;
    BitsOfOne(c, raw);
    BitsOfCons(c, sym, [raw]);
    assert [sym] + [raw] == [sym, raw];
  }

  lemma RawRead(v: int, tail: seq<bool>)
    requires v != 0
    ensures var n := BitLen(Abs(v));
            n > 0 && TakeBits(Bin(Extra(v), n) + tail, n) == Some(Decoded(Extra(v), tail)) && Extend(Extra(v), n) == v
  {
    var n := BitLen(Abs(v));
    BitLenBounds(Abs(v));
    NumBin(Extra(v), n);
    ExtendExtra(v);
    assert (Bin(Extra(v), n) + tail)[..n] == Bin(Extra(v), n);
    assert (Bin(Extra(v), n) + tail)[n..] == tail;
  }

  // A run of zeros and the coefficient that ends it.
  lemma {:induction false} NonzeroRead(t: HuffTbl, c: Tables, tbl: nat, r: nat, v: int, tail: seq<bool>, k: nat,
      se: nat)
    requires GoodTables(c) && tbl < NUM_HUFF_TBLS && Paired(t, TableOf(c, false, tbl)) && v != 0 && AcInRange(v)
        && r <= k <= se
    requires TokensCoded(c, NonzeroTokens(tbl, r, v))
    ensures ReadAc(t, BitsOf(c, NonzeroTokens(tbl, r, v)) + tail, k - r, se)
            == Prepend([Event(k - r % 16, k, v)], ReadAc(t, tail, k + 1, se))
    decreases r
  {
    hide DecodeSym, Bin, Paired, GoodTables, BitsOf, TokenBits;
    var toks := NonzeroTokens(tbl, r, v);
    assert TokenCoded(c, toks[0]);
    if r > 15 {
      var more := NonzeroTokens(tbl, r - 16, v);
      var zrl := Sym(false, tbl, ZRL);
      SplitCoded(c, [zrl], more);
      BitsOfCons(c, zrl, more);
      assert BitsOf(c, toks) + tail == TokenBits(c, zrl) + (BitsOf(c, more) + tail);
      TokenRead(t, c, false, tbl, ZRL, BitsOf(c, more) + tail);
      NonzeroRead(t, c, tbl, r - 16, v, tail, k, se);
    } else {
      LastOfRun(t, c, tbl, r, v, tail, k, se);
    }
  }

  lemma CoefRead(t: HuffTbl, c: Tables, tbl: nat, r: nat, v: int, tail: seq<bool>)
    requires GoodTables(c) && tbl < NUM_HUFF_TBLS && Paired(t, TableOf(c, false, tbl)) && v != 0 && AcInRange(v)
    requires r <= 15 && TokensCoded(c, NonzeroTokens(tbl, r, v))
    ensures ReadItem(t, BitsOf(c, NonzeroTokens(tbl, r, v)) + tail) == Some(Parsed(Coef(r, v), tail))
  {
    hide DecodeSym, Bin, Paired, GoodTables, BitsOf, Extra, Extend, BitLen;
    var n := BitLen(Abs(v));
    var sym, raw := Sym(false, tbl, 16 * r + n), Raw(Extra(v), n);
    assert TokenCoded(c, NonzeroTokens(tbl, r, v)[0]);
    BitLenBounds(Abs(v));
    SymbolAndRaw(c, sym, raw, tail);
    TokenRead(t, c, false, tbl, 16 * r + n, TokenBits(c, raw) + tail);
    RawRead(v, tail);
  }

  lemma LastOfRun(t: HuffTbl, c: Tables, tbl: nat, r: nat, v: int, tail: seq<bool>, k: nat, se: nat)
    requires GoodTables(c) && tbl < NUM_HUFF_TBLS && Paired(t, TableOf(c, false, tbl)) && v != 0 && AcInRange(v)
        && r <= k <= se
    requires r <= 15 && TokensCoded(c, NonzeroTokens(tbl, r, v))
    ensures ReadAc(t, BitsOf(c, NonzeroTokens(tbl, r, v)) + tail, k - r, se)
            == Prepend([Event(k - r, k, v)], ReadAc(t, tail, k + 1, se))
  {
    hide ReadItem, Paired, GoodTables, BitsOf, TokensCoded, NonzeroTokens;
    CoefRead(t, c, tbl, r, v, tail);
  }

  // Reading takes back exactly the bits that were written for the coefficients.
  lemma {:induction false} AcRead(t: HuffTbl, c: Tables, tbl: nat, z: seq<int>, k: nat, r: nat, tail: seq<bool>)
    requires GoodTables(c) && tbl < NUM_HUFF_TBLS && Paired(t, TableOf(c, false, tbl))
    requires (forall i :: 1 <= i < |z| ==> AcInRange(z[i])) && r < k <= |z|
    requires TokensCoded(c, AcTokens(tbl, z, k, r))
    ensures ReadAc(t, BitsOf(c, AcTokens(tbl, z, k, r)) + tail, k - r, |z| - 1) == Some(Parsed(EventsOf(z, k, r), tail))
    decreases |z| - k
  {
    hide Paired, GoodTables, NonzeroTokens, BitsOf, ReadAc, TokenCoded;
    if k >= |z| {
      AcReadEnd(t, c, tbl, z, r, tail);
    } else if z[k] == 0 {
      AcRead(t, c, tbl, z, k + 1, r + 1, tail);
    } else {
      var head, more := NonzeroTokens(tbl, r, z[k]), AcTokens(tbl, z, k + 1, 0);
      SplitCoded(c, head, more);
      BitsOfConcat(c, head, more);
      AcRead(t, c, tbl, z, k + 1, 0, tail);
      NonzeroRead(t, c, tbl, r, z[k], BitsOf(c, more) + tail, k, |z| - 1);
      assert BitsOf(c, head + more) + tail == BitsOf(c, head) + (BitsOf(c, more) + tail);
    }
  }

  lemma AcReadEnd(t: HuffTbl, c: Tables, tbl: nat, z: seq<int>, r: nat, tail: seq<bool>)
    requires GoodTables(c) && tbl < NUM_HUFF_TBLS && Paired(t, TableOf(c, false, tbl))
    requires (forall i :: 1 <= i < |z| ==> AcInRange(z[i])) && r < |z|
    requires TokensCoded(c, AcTokens(tbl, z, |z|, r))
    ensures ReadAc(t, BitsOf(c, AcTokens(tbl, z, |z|, r)) + tail, |z| - r, |z| - 1) == Some(Parsed([], tail))
  {
    hide DecodeSym, Paired, GoodTables;
    if r > 0 {
      EobRead(t, c, tbl, tail);
    } else {
      assert [] + tail == tail;
    }
  }

  lemma EobRead(t: HuffTbl, c: Tables, tbl: nat, tail: seq<bool>)
    requires GoodTables(c) && tbl < NUM_HUFF_TBLS && Paired(t, TableOf(c, false, tbl))
        && TokensCoded(c, [Sym(false, tbl, 0)])
    ensures DecodeSym(t, BitsOf(c, [Sym(false, tbl, 0)]) + tail) == Some(Decoded(0, tail))
  {
    hide DecodeSym, Bin, Paired, GoodTables;
    assert TokenCoded(c, [Sym(false, tbl, 0)][0]);
    BitsOfOne(c, Sym(false, tbl, 0));
    TokenRead(t, c, false, tbl, 0, tail);
  }

  lemma SplitCoded(c: Tables, a: seq<Token>, b: seq<Token>)
    requires GoodTables(c) && TokensOk(a) && TokensOk(b)
    ensures TokensOk(a + b) && (TokensCoded(c, a + b) <==> TokensCoded(c, a) && TokensCoded(c, b))
  {
    hide TokenOk, TokenCoded, GoodTables;
    forall i | 0 <= i < |b| ensures b[i] == (a + b)[|a| + i] {}
    if TokensCoded(c, a + b) {
      forall i | 0 <= i < |a| ensures TokenCoded(c, a[i]) { assert a[i] == (a + b)[i]; }
      forall i | 0 <= i < |b| ensures TokenCoded(c, b[i]) { assert b[i] == (a + b)[|a| + i]; }
    }
  }
}
