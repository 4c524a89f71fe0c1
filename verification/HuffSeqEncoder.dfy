// encode_one_block and htest_one_block of jchuff.c: the output pass writes, and
// the statistics pass counts, the symbols of the same block.
module HuffSeqEncoder {
  import opened Coefs
  import opened Division
  import opened Bytes
  import opened BitString
  import opened ZigzagOrder
  import opened HuffGen
  import opened HuffBitWriter
  import opened HuffTokens
  import opened HuffBlock

  // ---- Magnitudes ------------------------------------------------------------------------------------------

  // "while (temp) { nbits++; temp >>= 1; }"
  method CountBits(v: nat) returns (nbits: nat)
    ensures nbits == BitLen(v)
  {
    nbits := 0;
    var temp := v;
    while temp != 0
      invariant nbits + BitLen(temp) == BitLen(v)
      decreases temp
    {
      nbits := nbits + 1;
      temp := temp / 2;
    }
  }

  // "nbits = 1; while ((temp >>= 1)) nbits++;"
  method CountBitsNonzero(v: nat) returns (nbits: nat)
    requires v > 0
    ensures nbits == BitLen(v)
  {
    nbits := 1;
    var temp: nat := v / 2;
    while temp != 0
      invariant nbits + BitLen(temp) == BitLen(v)
      decreases temp
    {
      temp := temp / 2;
      nbits := nbits + 1;
    }
  }

  // A number as 32-bit two's complement.
  function Word(v: int): nat
    requires -WORD <= v < WORD
  {
    if v >= 0 then v else v + WORD
  }

  // The low bits of v, or of v - 1 when v is negative, tell the value.
  lemma LowBits(v: int)
    requires v != 0 && BitLen(Abs(v)) <= 16
    ensures -WORD <= v - 1 && v < WORD
    ensures Bin(Word(if v < 0 then v - 1 else v), BitLen(Abs(v))) == Bin(Extra(v), BitLen(Abs(v)))
  {
    BitLenBounds(Abs(v));
    Pow2Mono(BitLen(Abs(v)), 16);
    Pow2Table();
    if v < 0 { ComplementBits(-v, BitLen(-v)); }
  }

  lemma ComplementBits(m: nat, n: nat)
    requires m < Pow2(n) <= WORD && n <= 16
    ensures Bin(WORD - 1 - m, n) == Bin(Pow2(n) - 1 - m, n)
  {
    hide Bin, Pow2;
    var p, q := Pow2(n), Pow2(32 - n);
    Pow2Add(n, 32 - n);
    Pow2Add(24, 8);
    Pow2Table();
    OneLessTimes(p, q);
    DivIs(WORD - 1 - m, p, q - 1, p - 1 - m);
    BinMod(WORD - 1 - m, n, n);
  }

  lemma OneLessTimes(p: nat, q: nat)
    ensures p * (q - 1) == p * q - p
  {
  }

  // ---- Writing tokens --------------------------------------------------------------------------------------------

  // after is what was there before and the bits of toks, all of which have codes.
  predicate Wrote(t: Tables, before: seq<bool>, after: seq<bool>, toks: seq<Token>) {
    GoodTables(t) && TokensOk(toks) && TokensCoded(t, toks) && after == before + BitsOf(t, toks)
  }

  lemma WroteNothing(t: Tables, before: seq<bool>)
    requires GoodTables(t)
    ensures Wrote(t, before, before, [])
  {
  }

  lemma WroteMore(t: Tables, a: seq<bool>, b: seq<bool>, c: seq<bool>, x: seq<Token>, y: seq<Token>)
    requires Wrote(t, a, b, x) && Wrote(t, b, c, y)
    ensures Wrote(t, a, c, x + y)
  {
    hide GoodTables, TokenOk, TokenCoded, TokenBits, BitsOf;
    BitsOfConcat(t, x, y);
    SplitCoded(t, x, y);
  }

  lemma WroteOne(t: Tables, a: seq<bool>, b: seq<bool>, tok: Token)
    requires GoodTables(t) && TokenOk(tok) && TokenCoded(t, tok) && b == a + TokenBits(t, tok)
    ensures Wrote(t, a, b, [tok])
  {
    hide GoodTables, TokenBits;
    BitsOfOne(t, tok);
  }

  // emit_bits(state, tbl->ehufco[sym], tbl->ehufsi[sym])
  method EmitSymbol(w: BitWriter, t: Tables, isDC: bool, tbl: nat, sym: nat) returns (ok: bool)
    requires w.Valid() && GoodTables(t) && tbl < NUM_HUFF_TBLS && sym < REAL
    modifies w
    ensures ok == TokenCoded(t, Sym(isDC, tbl, sym)) && w.dest == old(w.dest)
    ensures ok ==> w.Valid() && Wrote(t, old(w.bits), w.bits, [Sym(isDC, tbl, sym)])
  {
    hide w.Valid, Wrote, Bin;
    var c := TableOf(t, isDC, tbl);
    ok := w.EmitBits(c.ehufco[sym], c.ehufsi[sym]);
    if ok { WroteOne(t, old(w.bits), w.bits, Sym(isDC, tbl, sym)); }
  }

  // The bits that tell a value of nbits bits: those of v, or of v - 1 when v is negative.
  method EmitExtra(w: BitWriter, ghost t: Tables, v: int, nbits: nat)
    requires w.Valid() && GoodTables(t) && v != 0 && nbits == BitLen(Abs(v)) <= 16
    modifies w
    ensures w.Valid() && Wrote(t, old(w.bits), w.bits, [Raw(Extra(v), nbits)]) && w.dest == old(w.dest)
  {
    hide w.Valid, Wrote, Bin;
    var temp2 := v;
    if v < 0 {
      temp2 := temp2 - 1;
    }
    LowBits(v);
    BitLenBounds(Abs(v));
    var _ := w.EmitBits(Word(temp2), nbits);
    WroteOne(t, old(w.bits), w.bits, Raw(Extra(v), nbits));
  }

  method PutDc(w: BitWriter, t: Tables, tbl: nat, diff: int) returns (ok: bool)
    requires w.Valid() && GoodTables(t) && tbl < NUM_HUFF_TBLS
    modifies w
    ensures ok <==> DcInRange(diff) && TokensCoded(t, DcTokens(tbl, diff))
    ensures w.dest == old(w.dest)
    ensures ok ==> w.Valid() && Wrote(t, old(w.bits), w.bits, DcTokens(tbl, diff))
  {
    hide w.Valid, Wrote, GoodTables;
    var temp := diff;
    if temp < 0 {
      temp := -temp;
    }
    var nbits := CountBits(temp);
    if nbits > MAX_COEF_BITS + 1 {
      return false;
    }
    var sym := Sym(true, tbl, nbits);
    ok := EmitSymbol(w, t, true, tbl, nbits);
    if !ok {
      assert DcTokens(tbl, diff)[0] == sym;
      return;
    }
    if nbits != 0 {
      ghost var middle := w.bits;
      EmitExtra(w, t, diff, nbits);
      WroteMore(t, old(w.bits), middle, w.bits, [sym], [Raw(Extra(diff), nbits)]);
      assert [sym] + [Raw(Extra(diff), nbits)] == DcTokens(tbl, diff);
    }
    assert TokensCoded(t, DcTokens(tbl, diff));
  }

  method PutNonzero(w: BitWriter, t: Tables, tbl: nat, r0: nat, v: int, nbits: nat) returns (ok: bool)
    requires w.Valid() && GoodTables(t) && tbl < NUM_HUFF_TBLS && v != 0 && AcInRange(v) && nbits == BitLen(Abs(v))
    modifies w
    ensures ok <==> TokensCoded(t, NonzeroTokens(tbl, r0, v))
    ensures w.dest == old(w.dest)
    ensures ok ==> w.Valid() && Wrote(t, old(w.bits), w.bits, NonzeroTokens(tbl, r0, v))
  {
    hide w.Valid, Wrote, GoodTables;
    var r: nat := r0;
    ghost var did: seq<Token> := [];
    WroteNothing(t, w.bits);
    while r > 15
      invariant w.Valid() && w.dest == old(w.dest)
      invariant Wrote(t, old(w.bits), w.bits, did) && did + NonzeroTokens(tbl, r, v) == NonzeroTokens(tbl, r0, v)
    {
      ghost var before, more := w.bits, NonzeroTokens(tbl, r - 16, v);
      assert did + ([Sym(false, tbl, ZRL)] + more) == (did + [Sym(false, tbl, ZRL)]) + more;
      ok := EmitSymbol(w, t, false, tbl, ZRL);
      if !ok {
        assert NonzeroTokens(tbl, r0, v)[|did|] == Sym(false, tbl, ZRL);
        return;
      }
      WroteMore(t, old(w.bits), before, w.bits, did, [Sym(false, tbl, ZRL)]);
      did := did + [Sym(false, tbl, ZRL)];
      r := r - 16;
    }
    BitLenBounds(Abs(v));
    ghost var before := w.bits;
    var sym := Sym(false, tbl, 16 * r + nbits);
    ok := EmitSymbol(w, t, false, tbl, 16 * r + nbits);
    if !ok {
      assert NonzeroTokens(tbl, r0, v)[|did|] == sym;
      return;
    }
    ghost var middle := w.bits;
    EmitExtra(w, t, v, nbits);
    WroteMore(t, before, middle, w.bits, [sym], [Raw(Extra(v), nbits)]);
    WroteMore(t, old(w.bits), before, w.bits, did, [sym] + [Raw(Extra(v), nbits)]);
    assert [sym] + [Raw(Extra(v), nbits)] == [sym, Raw(Extra(v), nbits)];
    WroteAllCoded(t, old(w.bits), w.bits, NonzeroTokens(tbl, r0, v));
  }

  lemma WroteAllCoded(t: Tables, a: seq<bool>, b: seq<bool>, toks: seq<Token>)
    requires Wrote(t, a, b, toks)
    ensures TokensCoded(t, toks)
  {
  }

  predicate AllInRange(z: seq<int>) {
    forall i :: 1 <= i < |z| ==> AcInRange(z[i])
  }

  method PutAc(w: BitWriter, t: Tables, tbl: nat, block: seq<int>, order: seq<nat>, se: nat) returns (ok: bool)
    requires w.Valid() && GoodTables(t) && tbl < NUM_HUFF_TBLS && ScanOrder(order, se) && |block| == 64
    modifies w
    ensures var z := Band(order, se, block);
            ok <==> AllInRange(z) && TokensCoded(t, AcTokens(tbl, z, 1, 0))
    ensures w.dest == old(w.dest)
    ensures ok ==> w.Valid() && Wrote(t, old(w.bits), w.bits, AcTokens(tbl, Band(order, se, block), 1, 0))
  {
    hide w.Valid, Wrote, GoodTables, TokensCoded, NonzeroTokens;
    ghost var z := Band(order, se, block);
    ghost var did: seq<Token> := [];
    WroteNothing(t, w.bits);
    var r := 0;
    for k := 1 to se + 1
      invariant w.Valid() && w.dest == old(w.dest)
      invariant TokensOk(did) && Wrote(t, old(w.bits), w.bits, did)
      invariant forall i :: 1 <= i < k ==> AcInRange(z[i])
      invariant AllInRange(z) ==> did + AcTokens(tbl, z, k, r) == AcTokens(tbl, z, 1, 0)
    {
      var temp := block[order[k]];
      if temp == 0 {
        r := r + 1;
      } else {
        var nbits := CountBitsNonzero(Abs(temp));
        if nbits > MAX_COEF_BITS {
          assert !AcInRange(z[k]);
          return false;
        }
        ghost var before, some := w.bits, NonzeroTokens(tbl, r, temp);
        ok := PutNonzero(w, t, tbl, r, temp, nbits);
        if AllInRange(z) {
          ghost var more := AcTokens(tbl, z, k + 1, 0);
          assert did + (some + more) == (did + some) + more;
          if !ok {
            UncodedInside(t, did, some, more);
          }
        }
        if !ok {
          return;
        }
        WroteMore(t, old(w.bits), before, w.bits, did, some);
        did := did + some;
        r := 0;
      }
    }
    if r > 0 {
      ghost var before := w.bits;
      ok := EmitSymbol(w, t, false, tbl, 0);
      if !ok {
        UncodedOne(t, Sym(false, tbl, 0));
        UncodedInside(t, did, [Sym(false, tbl, 0)], []);
        assert (did + [Sym(false, tbl, 0)]) + [] == did + [Sym(false, tbl, 0)];
        return;
      }
      WroteMore(t, old(w.bits), before, w.bits, did, [Sym(false, tbl, 0)]);
    } else {
      assert did + [] == did;
    }
    WroteAllCoded(t, old(w.bits), w.bits, AcTokens(tbl, z, 1, 0));
    ok := true;
  }

  lemma UncodedOne(t: Tables, tok: Token)
    requires GoodTables(t) && TokenOk(tok) && !TokenCoded(t, tok)
    ensures !TokensCoded(t, [tok])
  {
    assert [tok][0] == tok;
  }

  lemma UncodedInside(t: Tables, a: seq<Token>, b: seq<Token>, c: seq<Token>)
    requires GoodTables(t) && TokensOk(a) && TokensOk(b) && TokensOk(c) && !TokensCoded(t, b)
    ensures TokensOk((a + b) + c) && !TokensCoded(t, (a + b) + c)
  {
    SplitCoded(t, a, b);
    SplitCoded(t, a + b, c);
  }

  // What the block needs before it can be written.
  predicate Writable(t: Tables, dcTbl: nat, acTbl: nat, z: seq<int>, lastDc: int)
    requires GoodTables(t) && dcTbl < NUM_HUFF_TBLS && acTbl < NUM_HUFF_TBLS
  {
    InRange(z, lastDc) && TokensCoded(t, BlockTokens(dcTbl, acTbl, z, lastDc))
  }

  method EncodeOneBlock(w: BitWriter, t: Tables, dcTbl: nat, acTbl: nat, block: seq<int>, lastDc: int, order: seq<nat>,
      se: nat)
    returns (ok: bool)
    requires w.Valid() && GoodTables(t) && dcTbl < NUM_HUFF_TBLS && acTbl < NUM_HUFF_TBLS
    requires ScanOrder(order, se) && |block| == 64
    modifies w
    ensures ok <==> Writable(t, dcTbl, acTbl, Band(order, se, block), lastDc)
    ensures w.dest == old(w.dest)
    ensures ok ==> w.Valid() && Wrote(t, old(w.bits), w.bits, BlockTokens(dcTbl, acTbl, Band(order, se, block), lastDc))
  {
    hide w.Valid, Wrote, GoodTables, TokensCoded;
    ghost var z := Band(order, se, block);
    ghost var dc, ac: seq<Token> := [], [];
    if InRange(z, lastDc) {
      dc, ac := DcTokens(dcTbl, z[0] - lastDc), AcTokens(acTbl, z, 1, 0);
      SplitCoded(t, dc, ac);
    }
    ok := PutDc(w, t, dcTbl, block[0] - lastDc);
    if !ok {
      return;
    }
    ghost var middle := w.bits;
    ok := PutAc(w, t, acTbl, block, order, se);
    if ok {
      WroteMore(t, old(w.bits), middle, w.bits, dc, ac);
    }
  }
}
