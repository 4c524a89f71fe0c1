// HUFF_DECODE and jpeg_huff_decode: the lookahead table and the bit-by-bit search
// both find the symbol that the bits begin with.
module HuffDecode {
  import opened Bytes
  import opened BitString
  import opened EntropySegment
  import opened Kraft
  import opened HuffSpace
  import opened HuffGen
  import opened HuffCode
  import opened HuffDerived
  import opened HuffBitWriter
  import opened HuffBitReader

  // ---- The bit-by-bit search ---------------------------------------------------------------------------

  // The search has l bits in code and has found no code of fewer bits.
  predicate Searching(bits: seq<nat>, s: seq<bool>, l: nat, code: nat, rest: seq<bool>) {
    && |bits| == MAX_BITS + 1 && 1 <= l <= GIVE_UP && l <= |s|
    && code == Num(s[..l]) && rest == s[l..]
    && CodeLength(bits, s, 1) == CodeLength(bits, s, l)
  }

  // "code > maxcode[l]" says that no code of l bits fits.
  lemma SearchOn(bits: seq<nat>, s: seq<bool>, l: nat, code: nat, rest: seq<bool>, maxcode: int, valoffset: int,
      bit: nat, rest': seq<bool>)
    requires Searching(bits, s, l, code, rest) && l < GIVE_UP
    requires BoundsAt(bits, l, maxcode, valoffset) && code > maxcode
    requires TakeBits(rest, 1) == Some(Decoded(bit, rest'))
    ensures Searching(bits, s, l + 1, 2 * code + bit, rest')
  {
    hide Space, Num, First;
    NumNext(s, l + 1);
    assert rest[..1] == [s[l]];
    NumOne(s[l]);
  }

  lemma NumOne(b: bool)
    ensures Num([b]) == Bit(b)
  {
    assert [b][..0] == [];
  }

  lemma SearchShort(bits: seq<nat>, s: seq<bool>, l: nat, code: nat, rest: seq<bool>, maxcode: int, valoffset: int)
    requires Searching(bits, s, l, code, rest) && l < GIVE_UP
    requires BoundsAt(bits, l, maxcode, valoffset) && code > maxcode && TakeBits(rest, 1) == None
    ensures CodeLength(bits, s, 1) == 0
  {
    hide Space, Num, First;
  }

  // What decoding can give: a symbol of the table, or the zero that stands for a bad code.
  predicate Plausible(t: HuffTbl, sym: nat) {
    WellFormed(t) && Sum(t.bits) <= REAL && sym < REAL && (sym == 0 || sym in t.huffval[..Sum(t.bits)])
  }

  lemma ListedIsPlausible(t: HuffTbl, p: int)
    requires WellFormed(t) && Sum(t.bits) <= REAL && 0 <= p < Sum(t.bits)
    ensures Plausible(t, t.huffval[p])
  {
    hide Sum;
    assert t.huffval[p] == t.huffval[..Sum(t.bits)][p];
  }

  // The code is not below the codes of its length, so it stands for a symbol of the table.
  lemma SafeIndex(d: DTbl, l: nat, code: nat)
    requires DecodesWith(d.pub, d) && 1 <= l <= MAX_BITS
    requires 2 * Space(d.pub.bits, l - 1) <= code <= d.maxcode[l]
    ensures 0 <= code + d.valoffset[l] < Sum(d.pub.bits) <= REAL
    ensures d.pub.bits[l] > 0 && code < Space(d.pub.bits, l)
    ensures code + d.valoffset[l] == First(d.pub.bits, l) + code - 2 * Space(d.pub.bits, l - 1)
  {
    hide Space, First, LeavesOnesFree, Looks, Sum;
    var bits := d.pub.bits;
    assert BoundsAt(bits, l, d.maxcode[l], d.valoffset[l]);
    SpaceNext(bits, l);
    IndexInRange(bits, l, code - 2 * Space(bits, l - 1));
  }

  // Going on keeps the code above all codes of its length that are taken.
  lemma StaysAbove(d: DTbl, l: nat, code: nat)
    requires DecodesWith(d.pub, d) && 1 <= l <= MAX_BITS
    requires 2 * Space(d.pub.bits, l - 1) <= code && code > d.maxcode[l]
    ensures code >= Space(d.pub.bits, l)
  {
    hide Space, First, LeavesOnesFree, Looks, Sum;
    assert BoundsAt(d.pub.bits, l, d.maxcode[l], d.valoffset[l]);
    SpaceNext(d.pub.bits, l);
  }

  lemma SearchFound(d: DTbl, s: seq<bool>, l: nat, code: nat, rest: seq<bool>)
    requires DecodesWith(d.pub, d) && Searching(d.pub.bits, s, l, code, rest) && l < GIVE_UP
    requires 2 * Space(d.pub.bits, l - 1) <= code <= d.maxcode[l]
    requires 0 <= code + d.valoffset[l] < REAL
    ensures DecodeSym(d.pub, s) == Some(Decoded(d.pub.huffval[code + d.valoffset[l]], rest))
  {
    hide Space, First, LeavesOnesFree, Looks, Num;
    SafeIndex(d, l, code);
  }

  lemma SearchFails(t: HuffTbl, s: seq<bool>, code: nat, rest: seq<bool>)
    requires WellFormed(t) && Searching(t.bits, s, GIVE_UP, code, rest)
    ensures DecodeSym(t, s) == Some(Decoded(0, rest))
  {
  }

  lemma SentinelStops(d: DTbl, l: nat, code: nat)
    requires DecodesWith(d.pub, d) && 1 <= l <= GIVE_UP && code < Pow2(l) && code > d.maxcode[l]
    ensures l <= MAX_BITS
  {
    hide Bounds, Looks, LeavesOnesFree;
    Pow2Table();
    assert Pow2(GIVE_UP) == 2 * Pow2(16);
  }

  // No code of fewer than minBits bits begins what is to come.
  predicate NotShorter(bits: seq<nat>, s: seq<bool>, minBits: nat) {
    && |bits| == MAX_BITS + 1 && 1 <= minBits <= MAX_BITS && minBits - 1 <= |s|
    && Num(s[..minBits - 1]) >= Space(bits, minBits - 1)
    && CodeLength(bits, s, 1) == CodeLength(bits, s, minBits)
  }

  lemma SearchStarts(bits: seq<nat>, s: seq<bool>, minBits: nat, seen: seq<bool>, code: nat, rest: seq<bool>)
    requires NotShorter(bits, s, minBits) && s <= seen && TakeBits(seen, minBits) == Some(Decoded(code, rest))
    ensures code >= 2 * Space(bits, minBits - 1)
    ensures seen == s ==> Searching(bits, s, minBits, code, rest)
    ensures minBits > |s| ==> CodeLength(bits, s, 1) == 0
  {
    hide Space, Num;
    NumNext(seen, minBits);
    assert seen[..minBits - 1] == s[..minBits - 1];
  }

  method SlowDecode(br: BitReader, d: DTbl, minBits: nat) returns (ok: bool, sym: nat)
    requires br.Valid() && DecodesWith(d.pub, d) && NotShorter(d.pub.bits, br.Rest(), minBits)
    modifies br
    ensures br.Valid() && br.Steady(old(br.Ahead()), ok)
    ensures ok ==> Plausible(d.pub, sym)
    ensures old(br.insufficient) ==> br.insufficient
    ensures ok && !old(br.insufficient) ==> br.Agrees(DecodeSym(d.pub, old(br.Rest())), sym)
  {
    hide Bin, Num, Space, First, LeavesOnesFree, Looks, Coming, BoundsAt, NotShorter, Sum, Plausible, Searching,
        CodeLength, br.Ahead;
    ghost var s := br.Rest();
    NotShorterRange(d.pub.bits, s, minBits);
    var l := minBits;
    var code: nat;
    ok, code := br.Get(l);
    if !ok {
      return false, 0;
    }
    ghost var seen :| s <= seen && TakeBits(seen, l) == Some(Decoded(code, br.Rest()));
    SearchStarts(d.pub.bits, s, l, seen, code, br.Rest());
    while code > d.maxcode[l]
      invariant br.Valid() && 1 <= l <= GIVE_UP && code < Pow2(l) && code >= 2 * Space(d.pub.bits, l - 1)
      invariant br.Steady(old(br.Ahead()), true)
      invariant old(br.insufficient) ==> br.insufficient
      invariant !old(br.insufficient) && br.insufficient ==> CodeLength(d.pub.bits, s, 1) == 0
      invariant !br.insufficient ==> Searching(d.pub.bits, s, l, code, br.Rest())
      decreases GIVE_UP - l
    {
      SentinelStops(d, l, code);
      StaysAbove(d, l, code);
      ghost var r0, dry := br.Rest(), br.insufficient;
      var bit;
      ok, bit := br.Get(1);
      if !ok {
        return false, 0;
      }
      SearchStep(d, s, l, code, r0, bit, br.Rest(), dry, br.insufficient);
      code := 2 * code + bit;
      l := l + 1;
    }
    CountsInRange(d);
    if l > 16 {
      if !br.insufficient { SearchFails(d.pub, s, code, br.Rest()); }
      return true, 0;
    }
    SafeIndex(d, l, code);
    if !br.insufficient { SearchFound(d, s, l, code, br.Rest()); }
    sym := d.pub.huffval[code + d.valoffset[l]];
    ListedIsPlausible(d.pub, code + d.valoffset[l]);
  }

  lemma CountsInRange(d: DTbl)
    requires DecodesWith(d.pub, d)
    ensures WellFormed(d.pub) && Sum(d.pub.bits) <= REAL && Plausible(d.pub, 0)
  {
  }

  lemma NotShorterRange(bits: seq<nat>, s: seq<bool>, minBits: nat)
    requires NotShorter(bits, s, minBits)
    ensures 1 <= minBits <= 16
  {
  }

  lemma SearchStep(d: DTbl, s: seq<bool>, l: nat, code: nat, rest: seq<bool>, bit: nat, rest': seq<bool>, dry: bool,
      dry': bool)
    requires DecodesWith(d.pub, d) && 1 <= l <= MAX_BITS && code > d.maxcode[l]
    requires !dry ==> Searching(d.pub.bits, s, l, code, rest)
    requires !dry ==> if TakeBits(rest, 1).Some? then !dry' && TakeBits(rest, 1) == Some(Decoded(bit, rest')) else dry'
    requires dry ==> dry'
    ensures !dry && dry' ==> CodeLength(d.pub.bits, s, 1) == 0
    ensures !dry' ==> Searching(d.pub.bits, s, l + 1, 2 * code + bit, rest')
  {
    hide Looks, LeavesOnesFree, Searching, TakeBits, BoundsAt;
    assert BoundsAt(d.pub.bits, l, d.maxcode[l], d.valoffset[l]);
    if !dry {
      if dry' {
        SearchShort(d.pub.bits, s, l, code, rest, d.maxcode[l], d.valoffset[l]);
      } else {
        SearchOn(d.pub.bits, s, l, code, rest, d.maxcode[l], d.valoffset[l], bit, rest');
      }
    }
  }

  // ---- The lookahead table ---------------------------------------------------------------------------------

  lemma {:induction false} LookPrefix(bits: seq<nat>, s: seq<bool>, l: nat)
    requires |bits| == MAX_BITS + 1 && |s| >= LOOKAHEAD && 1 <= l <= LOOKAHEAD + 1
    ensures var n := CodeLength(bits, s[..LOOKAHEAD], l);
            CodeLength(bits, s, l) == if n > 0 then n else CodeLength(bits, s, LOOKAHEAD + 1)
    decreases LOOKAHEAD + 1 - l
  {
    hide Num, Space;
    if l <= LOOKAHEAD {
      assert s[..LOOKAHEAD][..l] == s[..l];
      LookPrefix(bits, s, l + 1);
    }
  }

  lemma {:induction false} PassedOver(bits: seq<nat>, s: seq<bool>, l: nat)
    requires |bits| == MAX_BITS + 1 && |s| >= LOOKAHEAD && 1 <= l <= LOOKAHEAD + 1 && NoneUpTo(bits, s, l - 1)
    requires CodeLength(bits, s[..LOOKAHEAD], l) == 0
    ensures NoneUpTo(bits, s, LOOKAHEAD)
    decreases LOOKAHEAD + 1 - l
  {
    hide Num, Space;
    if l <= LOOKAHEAD {
      assert s[..LOOKAHEAD][..l] == s[..l];
      NoneUpToNext(bits, s, l - 1);
      PassedOver(bits, s, l + 1);
    }
  }

  // An entry of zero means that no code fits into eight bits; any other entry is
  // the code that the bits begin with.
  lemma LookRight(d: DTbl, s: seq<bool>, look: nat)
    requires DecodesWith(d.pub, d) && look < REAL && |s| >= LOOKAHEAD && s[..LOOKAHEAD] == Bin(look, LOOKAHEAD)
    ensures d.lookNbits[look] == 0 ==> NotShorter(d.pub.bits, s, LOOKAHEAD + 1)
    ensures d.lookNbits[look] != 0 ==>
              d.lookNbits[look] <= LOOKAHEAD && Plausible(d.pub, d.lookSym[look])
              && DecodeSym(d.pub, s) == Some(Decoded(d.lookSym[look], s[d.lookNbits[look]..]))
  {
    hide Num, Space, Bin, First, Sum, LeavesOnesFree, Bounds, HeadIsCode;
    var t, n := d.pub, CodeLength(d.pub.bits, Bin(look, LOOKAHEAD), 1);
    LookPrefix(t.bits, s, 1);
    NoneUpToZero(t.bits, s);
    NoneUpToZero(t.bits, Bin(look, LOOKAHEAD));
    assert LookAt(t, look, REAL, d.lookNbits[look], d.lookSym[look]);
    if n == 0 {
      PassedOver(t.bits, s, 1);
    } else {
      FoundCode(t.bits, Bin(look, LOOKAHEAD), 1);
      HeadIndex(t.bits, Bin(look, LOOKAHEAD), n);
      ListedIsPlausible(t, Slot(t.bits, look));
      assert s[..LOOKAHEAD][..n] == s[..n];
    }
  }

  lemma HeadIndex(bits: seq<nat>, s: seq<bool>, l: nat)
    requires HeadIsCode(bits, s, l)
    ensures 0 <= First(bits, l) + Num(s[..l]) - 2 * Space(bits, l - 1) < Sum(bits)
  {
    hide First, Space, Num;
    IndexInRange(bits, l, Num(s[..l]) - 2 * Space(bits, l - 1));
  }

  lemma AnyLength(bits: seq<nat>, s: seq<bool>)
    requires |bits| == MAX_BITS + 1 && bits[0] == 0
    ensures NotShorter(bits, s, 1)
  {
    assert s[..0] == [];
  }

  // Eight bits are looked at without being consumed.
  lemma PeekIsHead(input: seq<byte>, s: BitState, look: nat)
    requires s.bitsLeft >= LOOKAHEAD && look == Shr(s.getBuffer, s.bitsLeft - LOOKAHEAD) % 256
    ensures |Coming(input, s)| >= LOOKAHEAD && Coming(input, s)[..LOOKAHEAD] == Bin(look, LOOKAHEAD)
  {
    hide Segment, ByteBits, Bin;
    var k := s.bitsLeft - LOOKAHEAD;
    BinSplit(s.getBuffer, LOOKAHEAD, k);
    BinMod(Shr(s.getBuffer, k), LOOKAHEAD, LOOKAHEAD);
    Pow2Table();
  }

  lemma DropIsRest(input: seq<byte>, s: BitState, n: nat)
    requires n <= s.bitsLeft
    ensures n <= |Coming(input, s)| && Coming(input, s.(bitsLeft := s.bitsLeft - n)) == Coming(input, s)[n..]
  {
    hide Segment, ByteBits;
    GetIsTake(input, s, n);
  }

  // Decodes the next symbol: by lookahead when eight bits are at hand and hold a
  // code, bit by bit otherwise. Either way it is the symbol the bits begin with.
  method DecodeSymbol(br: BitReader, d: DTbl) returns (ok: bool, sym: nat)
    requires br.Valid() && DecodesWith(d.pub, d)
    modifies br
    ensures br.Valid() && br.Steady(old(br.Ahead()), ok)
    ensures ok ==> Plausible(d.pub, sym)
    ensures old(br.insufficient) ==> br.insufficient
    ensures ok && !old(br.insufficient) ==> br.Agrees(DecodeSym(d.pub, old(br.Rest())), sym)
  {
    hide DecodeSym, Bounds, Looks, GoodCounts, Coming, NotShorter, MarkerAfter, Plausible;
    if br.bitsLeft < LOOKAHEAD {
      ok := br.Fill(0);
      if !ok {
        return false, 0;
      }
      if br.bitsLeft < LOOKAHEAD {
        BitsZero(d);
        AnyLength(d.pub.bits, br.Rest());
        ok, sym := SlowDecode(br, d, 1);
        return;
      }
    }
    var look := Shr(br.getBuffer, br.bitsLeft - LOOKAHEAD) % 256;
    ghost var s := br.State();
    PeekIsHead(br.input, s, look);
    LookInRange(d);
    LookRight(d, br.Rest(), look);
    var nb := d.lookNbits[look];
    if nb != 0 {
      DropIsRest(br.input, s, nb);
      br.bitsLeft := br.bitsLeft - nb;
      return true, d.lookSym[look];
    }
    ok, sym := SlowDecode(br, d, LOOKAHEAD + 1);
  }

  lemma BitsZero(d: DTbl)
    requires DecodesWith(d.pub, d)
    ensures |d.pub.bits| == MAX_BITS + 1 && d.pub.bits[0] == 0
  {
  }

  lemma LookInRange(d: DTbl)
    requires DecodesWith(d.pub, d)
    ensures |d.lookNbits| == |d.lookSym| == REAL
  {
  }
}
