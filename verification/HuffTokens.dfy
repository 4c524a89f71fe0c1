// What a Huffman-coded scan is made of: symbols to look up in a table and raw bits.
module HuffTokens {
  import opened Coefs
  import opened Bytes
  import opened BitString
  import opened HuffGen
  import opened HuffCode
  import opened HuffDerived

  // ---- Magnitudes ------------------------------------------------------------------------------------------

  // The number of bits needed for a magnitude.
  function BitLen(v: nat): nat {
    if v == 0 then 0 else 1 + BitLen(v / 2)
  }

  lemma {:induction false} BitLenBounds(v: nat)
    requires v > 0
    ensures BitLen(v) > 0 && Pow2(BitLen(v) - 1) <= v < Pow2(BitLen(v))
  {
    if v > 1 { BitLenBounds(v / 2); } else { assert BitLen(1) == 1; }
  }

  lemma {:induction false} BitLenAtMost(v: nat, n: nat)
    ensures BitLen(v) <= n <==> v < Pow2(n)
    decreases n
  {
    if n > 0 && v > 0 { BitLenAtMost(v / 2, n - 1); }
  }

  // The bits that tell which of the values of n bits it is: a positive value as
  // it is, a negative one as the complement of its magnitude.
  function Extra(v: int): (x: nat)
    ensures v != 0 ==> x < Pow2(BitLen(Abs(v)))
  {
    if v >= 0 then (if v > 0 then (BitLenBounds(v); v) else 0)
    else (BitLenBounds(-v); Pow2(BitLen(-v)) - 1 + v)
  }

  // HUFF_EXTEND
  function Extend(x: nat, n: nat): int
    requires n > 0
  {
    if x < Pow2(n - 1) then x - (Pow2(n) - 1) else x
  }

  lemma ExtendExtra(v: int)
    requires v != 0
    ensures Extend(Extra(v), BitLen(Abs(v))) == v
  {
    BitLenBounds(Abs(v));
  }

  // ---- Tokens ---------------------------------------------------------------------------------------------------

  const NUM_HUFF_TBLS := 4

  datatype Token = Sym(isDC: bool, tbl: nat, sym: nat) | Raw(value: nat, size: nat)

  datatype Tables = Tables(dc: seq<CTbl>, ac: seq<CTbl>)

  predicate TokenOk(tok: Token) {
    match tok
    case Sym(_, tbl, sym) => tbl < NUM_HUFF_TBLS && sym < REAL
    case Raw(_, size) => 1 <= size <= 16
  }

  predicate GoodCTbl(c: CTbl) {
    |c.ehufco| == |c.ehufsi| == REAL && forall v :: 0 <= v < REAL ==> c.ehufsi[v] <= MAX_BITS
  }

  predicate GoodTables(t: Tables) {
    && |t.dc| == |t.ac| == NUM_HUFF_TBLS
    && forall i :: 0 <= i < NUM_HUFF_TBLS ==> GoodCTbl(t.dc[i]) && GoodCTbl(t.ac[i])
  }

  function TableOf(t: Tables, isDC: bool, tbl: nat): CTbl
    requires GoodTables(t) && tbl < NUM_HUFF_TBLS
  {
    if isDC then t.dc[tbl] else t.ac[tbl]
  }

  function TokenBits(t: Tables, tok: Token): seq<bool>
    requires GoodTables(t) && TokenOk(tok)
  {
    match tok
    case Sym(isDC, tbl, sym) => Bin(TableOf(t, isDC, tbl).ehufco[sym], TableOf(t, isDC, tbl).ehufsi[sym])
    case Raw(value, size) => Bin(value, size)
  }

  // The table has a code for the symbol.
  predicate TokenCoded(t: Tables, tok: Token)
    requires GoodTables(t) && TokenOk(tok)
  {
    tok.Sym? ==> TableOf(t, tok.isDC, tok.tbl).ehufsi[tok.sym] > 0
  }

  predicate TokensOk(toks: seq<Token>) {
    forall i :: 0 <= i < |toks| ==> TokenOk(toks[i])
  }

  predicate TokensCoded(t: Tables, toks: seq<Token>)
    requires GoodTables(t) && TokensOk(toks)
  {
    forall i :: 0 <= i < |toks| ==> TokenCoded(t, toks[i])
  }

  function BitsOf(t: Tables, toks: seq<Token>): seq<bool>
    requires GoodTables(t) && TokensOk(toks)
  {
    if toks == [] then [] else BitsOf(t, toks[..|toks| - 1]) + TokenBits(t, toks[|toks| - 1])
  }

  lemma BitsOfSnoc(t: Tables, toks: seq<Token>, tok: Token)
    requires GoodTables(t) && TokensOk(toks) && TokenOk(tok)
    ensures TokensOk(toks + [tok]) && BitsOf(t, toks + [tok]) == BitsOf(t, toks) + TokenBits(t, tok)
  {
    hide TokenBits, TokenOk, GoodTables;
    assert (toks + [tok])[..|toks|] == toks;
  }

  lemma {:induction false} BitsOfConcat(t: Tables, a: seq<Token>, b: seq<Token>)
    requires GoodTables(t) && TokensOk(a) && TokensOk(b)
    ensures TokensOk(a + b) && BitsOf(t, a + b) == BitsOf(t, a) + BitsOf(t, b)
    decreases |b|
  {
    hide TokenBits, TokenOk, GoodTables;
    if b == [] {
      assert a + b == a;
    } else {
      var c := b[..|b| - 1];
      BitsOfConcat(t, a, c);
      assert (a + b)[..|a + b| - 1] == a + c;
      assert BitsOf(t, a + b) == BitsOf(t, a + c) + TokenBits(t, b[|b| - 1]);
    }
  }

  lemma BitsOfCons(t: Tables, tok: Token, toks: seq<Token>)
    requires GoodTables(t) && TokenOk(tok) && TokensOk(toks)
    ensures TokensOk([tok] + toks) && BitsOf(t, [tok] + toks) == TokenBits(t, tok) + BitsOf(t, toks)
  {
    hide TokenBits, TokenOk, GoodTables;
    BitsOfSnoc(t, [], tok);
    assert [] + [tok] == [tok];
    BitsOfConcat(t, [tok], toks);
  }

  // ---- Counting symbols ----------------------------------------------------------------------------------------

  function CountOf(toks: seq<Token>, isDC: bool, tbl: nat, sym: nat): nat {
    if toks == [] then 0
    else CountOf(toks[..|toks| - 1], isDC, tbl, sym) + if toks[|toks| - 1] == Sym(isDC, tbl, sym) then 1 else 0
  }

  lemma CountSnoc(toks: seq<Token>, tok: Token, isDC: bool, tbl: nat, sym: nat)
    ensures CountOf(toks + [tok], isDC, tbl, sym) == CountOf(toks, isDC, tbl, sym) + if tok == Sym(isDC, tbl, sym)
        then 1 else 0
  {
    assert (toks + [tok])[..|toks|] == toks;
  }

  lemma {:induction false} CountConcat(a: seq<Token>, b: seq<Token>, isDC: bool, tbl: nat, sym: nat)
    ensures CountOf(a + b, isDC, tbl, sym) == CountOf(a, isDC, tbl, sym) + CountOf(b, isDC, tbl, sym)
    decreases |b|
  {
    if b == [] {
      assert a + b == a;
    } else {
      CountConcat(a, b[..|b| - 1], isDC, tbl, sym);
      assert (a + b)[..|a + b| - 1] == a + b[..|b| - 1];
    }
  }

  lemma {:induction false} CountedIfPresent(toks: seq<Token>, isDC: bool, tbl: nat, sym: nat)
    ensures CountOf(toks, isDC, tbl, sym) > 0 <==> Sym(isDC, tbl, sym) in toks
  {
    if toks != [] {
      CountedIfPresent(toks[..|toks| - 1], isDC, tbl, sym);
      assert toks == toks[..|toks| - 1] + [toks[|toks| - 1]];
    }
  }

  // ---- Reading a token back -------------------------------------------------------------------------------------

  // The encoder's and the decoder's tables come from the same Huffman table.
  ghost predicate Paired(t: HuffTbl, c: CTbl) {
    WellFormed(t) && GoodCounts(t.bits) && EncodesWith(t, c)
  }

  lemma PairedWell(t: HuffTbl, c: CTbl)
    requires Paired(t, c)
    ensures WellFormed(t)
  {
  }

  lemma SymbolRead(t: HuffTbl, c: CTbl, sym: nat, tail: seq<bool>)
    requires Paired(t, c) && sym < REAL && c.ehufsi[sym] > 0
    ensures DecodeSym(t, Bin(c.ehufco[sym], c.ehufsi[sym]) + tail) == Some(Decoded(sym, tail))
  {
    hide DecodeSym, Bin, GoodCounts;
    var l: nat, i: nat :| Assigned(t, sym, l, i);
    DecodesCode(t, sym, l, i, tail);
  }

  lemma TokenRead(t: HuffTbl, c: Tables, isDC: bool, tbl: nat, sym: nat, tail: seq<bool>)
    requires GoodTables(c) && TokenOk(Sym(isDC, tbl, sym)) && Paired(t, TableOf(c, isDC, tbl))
        && TokenCoded(c, Sym(isDC, tbl, sym))
    ensures DecodeSym(t, TokenBits(c, Sym(isDC, tbl, sym)) + tail) == Some(Decoded(sym, tail))
  {
    hide DecodeSym, Bin, Paired;
    SymbolRead(t, TableOf(c, isDC, tbl), sym, tail);
  }

  lemma BitsOfOne(c: Tables, tok: Token)
    requires GoodTables(c) && TokenOk(tok)
    ensures BitsOf(c, [tok]) == TokenBits(c, tok)
  {
    hide TokenBits, TokenOk, GoodTables;
    BitsOfSnoc(c, [], tok);
    assert [] + [tok] == [tok];
  }

  lemma PairedIsGood(t: HuffTbl, c: CTbl)
    requires Paired(t, c)
    ensures GoodCTbl(c)
  {
    hide GoodCounts;
    forall v | 0 <= v < REAL ensures c.ehufsi[v] <= MAX_BITS {
      if c.ehufsi[v] > 0 {
        var l: nat, i: nat :| Assigned(t, v, l, i);
      }
    }
  }
}
