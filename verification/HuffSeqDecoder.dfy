// decode_mcu and decode_mcu_sub of jdhuff.c: reading the blocks of a sequential
// Huffman scan, with the coefficients beyond coef_limit skipped but not stored.
module HuffSeqDecoder {
  import opened Coefs
  import opened ZigzagOrder
  import opened Kraft
  import opened HuffGen
  import opened HuffCode
  import opened HuffDerived
  import opened HuffBitReader
  import opened HuffDecode
  import opened HuffTokens
  import opened HuffBlock

  // The outcome x of reading is what the specification says; there is no outcome
  // when the bits run out, and then zero bits have been made up.
  predicate Got<T(==)>(spec: Option<Parsed<T>>, x: T, br: BitReader) reads br {
    match spec
    case Some(p) => !br.insufficient && x == p.value && br.Rest() == p.rest
    case None => br.insufficient
  }

  // A table whose symbols are sizes of at most 15 bits, as the decoder demands for DC.
  predicate DcTable(t: HuffTbl) {
    WellFormed(t) && Sum(t.bits) <= REAL && forall p :: 0 <= p < Sum(t.bits) ==> t.huffval[p] <= 15
  }

  lemma PlausibleDc(t: HuffTbl, sym: nat)
    requires DcTable(t) && Plausible(t, sym)
    ensures sym <= 15
  {
    hide Sum;
    if sym != 0 {
      var p :| 0 <= p < Sum(t.bits) && t.huffval[..Sum(t.bits)][p] == sym;
    }
  }

  // The DC difference. When the value is not needed its bits are read all the same.
  method ReadDiff(br: BitReader, d: DTbl) returns (ok: bool, diff: int)
    requires br.Valid() && DecodesWith(d.pub, d) && DcTable(d.pub)
    modifies br
    ensures br.Valid() && br.Steady(old(br.Ahead()), ok)
    ensures old(br.insufficient) ==> br.insufficient
    ensures ok && !old(br.insufficient) ==> Got(ReadDc(d.pub, old(br.Rest())), diff, br)
  {
    hide DecodeSym, DecodesWith, DcTable, br.Ahead, Coming, TakeBits, Plausible;
    var s;
    diff := 0;
    ok, s := DecodeSymbol(br, d);
    if !ok {
      return;
    }
    PlausibleDc(d.pub, s);
    if s != 0 {
      var r;
      ok, r := br.Get(s);
      if !ok {
        return;
      }
      diff := Extend(r, s);
    }
  }

  // One AC symbol and its extra bits.
  method ReadAcItem(br: BitReader, d: DTbl) returns (ok: bool, item: Item)
    requires br.Valid() && DecodesWith(d.pub, d)
    modifies br
    ensures br.Valid() && br.Steady(old(br.Ahead()), ok)
    ensures ok && item.Coef? ==> item.r <= 15
    ensures old(br.insufficient) ==> br.insufficient
    ensures ok && !old(br.insufficient) ==> Got(ReadItem(d.pub, old(br.Rest())), item, br)
  {
    hide DecodeSym, DecodesWith, br.Ahead, Coming, TakeBits;
    var s;
    item := EndOfBlock;
    ok, s := DecodeSymbol(br, d);
    if !ok {
      return;
    }
    var r := s / 16;
    s := s % 16;
    if s != 0 {
      var x;
      ok, x := br.Get(s);
      if !ok {
        return;
      }
      item := Coef(r, Extend(x, s));
    } else if r == 15 {
      item := SixteenZeros;
    }
  }

  // ---- The coefficients of a block ----------------------------------------------------------------------------

  predicate Places(es: seq<Event>, n: nat) {
    forall i :: 0 <= i < |es| ==> es[i].k < n
  }

  // The block after the coefficients found before place limit have been stored.
  function Apply(order: seq<nat>, b: seq<int>, es: seq<Event>, limit: nat): (c: seq<int>)
    requires |b| == 64 && (forall i :: 0 <= i < |order| ==> order[i] < 64) && Places(es, |order|)
    ensures |c| == 64
  {
    if es == [] then b
    else
      var c, e := Apply(order, b, es[..|es| - 1], limit), es[|es| - 1];
      if e.at < limit then c[order[e.k] := e.v] else c
  }

  lemma ApplySnoc(order: seq<nat>, b: seq<int>, es: seq<Event>, e: Event, limit: nat)
    requires |b| == 64 && (forall i :: 0 <= i < |order| ==> order[i] < 64) && Places(es, |order|) && e.k < |order|
    ensures Places(es + [e], |order|)
    ensures Apply(order, b, es + [e], limit)
            == if e.at < limit then Apply(order, b, es, limit)[order[e.k] := e.v] else Apply(order, b, es, limit)
  {
    assert (es + [e])[..|es|] == es;
  }

  lemma {:induction false} ApplyBeyond(order: seq<nat>, b: seq<int>, es: seq<Event>, more: seq<Event>, limit: nat)
    requires |b| == 64 && (forall i :: 0 <= i < |order| ==> order[i] < 64) && Places(es, |order|)
        && Places(more, |order|)
    requires forall i :: 0 <= i < |more| ==> more[i].at >= limit
    ensures Places(es + more, |order|) && Apply(order, b, es + more, limit) == Apply(order, b, es, limit)
    decreases |more|
  {
    if more == [] {
      assert es + more == es;
    } else {
      var m := more[..|more| - 1];
      ApplyBeyond(order, b, es, m, limit);
      assert es + more == (es + m) + [more[|more| - 1]];
      ApplySnoc(order, b, es + m, more[|more| - 1], limit);
    }
  }

  lemma PrependMore(a: seq<Event>, b: seq<Event>, p: Option<Parsed<seq<Event>>>)
    ensures Prepend(a, Prepend(b, p)) == Prepend(a + b, p)
  {
    if p.Some? { assert a + (b + p.value.value) == (a + b) + p.value.value; }
  }

  lemma PrependNothing(p: Option<Parsed<seq<Event>>>)
    ensures Prepend([], p) == p
  {
    if p.Some? { assert [] + p.value.value == p.value.value; }
  }

  // How far the reading has got: place k has been reached and evs have been found,
  // or, when done, all of them.
  predicate Reached(t: HuffTbl, s: seq<bool>, k0: nat, se: nat, evs: seq<Event>, rest: seq<bool>, k: nat, done: bool)
    requires WellFormed(t)
  {
    ReadAc(t, s, k0, se) == if done then Some(Parsed(evs, rest)) else Prepend(evs, ReadAc(t, rest, k, se))
  }

  // What one more symbol, read at place k, does to that.
  predicate OneFurther(p: Option<Parsed<Item>>, t: HuffTbl, s: seq<bool>, k0: nat, se: nat, evs: seq<Event>, k: nat)
    requires WellFormed(t)
  {
    match p
    case None => ReadAc(t, s, k0, se) == None
    case Some(Parsed(item, rest)) =>
      match item
      case Coef(r, v) => Reached(t, s, k0, se, evs + [Event(k, k + r, v)], rest, k + r + 1, false)
      case SixteenZeros => Reached(t, s, k0, se, evs, rest, k + 16, false)
      case EndOfBlock => Reached(t, s, k0, se, evs, rest, k, true)
  }

  lemma OneItem(t: HuffTbl, s: seq<bool>, k0: nat, se: nat, evs: seq<Event>, rest: seq<bool>, k: nat)
    requires WellFormed(t) && Reached(t, s, k0, se, evs, rest, k, false) && k <= se
    ensures OneFurther(ReadItem(t, rest), t, s, k0, se, evs, k)
  {
    hide ReadItem;
    var p := ReadItem(t, rest);
    if p.Some? {
      if p.value.value.Coef? {
        PrependMore(evs, [Event(k, k + p.value.value.r, p.value.value.v)],
            ReadAc(t, p.value.rest, k + p.value.value.r + 1, se));
      } else if p.value.value.EndOfBlock? {
        assert evs + [] == evs;
      }
    }
  }

  // "for (; k < coef_limit; k++)": the coefficients are stored. Ends at the end of
  // the block or beyond the limit.
  method StoreCoefs(br: BitReader, d: DTbl, block: array<int>, order: seq<nat>, se: nat, limit: nat)
    returns (ok: bool, k: nat, done: bool, ghost evs: seq<Event>)
    requires br.Valid() && DecodesWith(d.pub, d) && block.Length == 64 && ScanOrder(order, se) && limit <= se + 1
    modifies br, block
    ensures br.Valid() && br.Steady(old(br.Ahead()), ok)
    ensures old(br.insufficient) ==> br.insufficient
    ensures Places(evs, |order|) && block[..] == Apply(order, old(block[..]), evs, limit)
    ensures !done ==> k >= limit && k >= 1
    ensures ok && !old(br.insufficient) ==>
              if br.insufficient then ReadAc(d.pub, old(br.Rest()), 1, se) == None
              else Reached(d.pub, old(br.Rest()), 1, se, evs, br.Rest(), k, done)
  {
    hide DecodesWith, br.Ahead, Coming, ReadAc, ReadItem, WellFormed, GoodState;
    TablesWell(d);
    ghost var s, dry0 := br.Rest(), br.insufficient;
    k, done, evs := 1, false, [];
    PrependNothing(ReadAc(d.pub, s, 1, se));
    while k < limit
      invariant k >= 1 && br.Valid() && br.Steady(old(br.Ahead()), true)
      invariant dry0 ==> br.insufficient
      invariant Places(evs, |order|) && block[..] == Apply(order, old(block[..]), evs, limit)
      invariant !dry0 ==>
          if br.insufficient then ReadAc(d.pub, s, 1, se) == None
          else Reached(d.pub, s, 1, se, evs, br.Rest(), k, false)
      decreases limit - k
    {
      ghost var rest, dry := br.Rest(), br.insufficient;
      if !dry0 && !dry { OneItem(d.pub, s, 1, se, evs, rest, k); }
      var item;
      ok, item := ReadAcItem(br, d);
      if !ok {
        return false, k, true, evs;
      }
      match item
      case Coef(r, v) =>
        ghost var e := Event(k, k + r, v);
        k := k + r;
        ApplySnoc(order, old(block[..]), evs, e, limit);
        ghost var after := block[..][order[k] := v];
        block[order[k]] := v;
        assert block[..] == after;
        evs := evs + [e];
        k := k + 1;
      case SixteenZeros =>
        k := k + 15;
        k := k + 1;
      case EndOfBlock =>
        return true, k, true, evs;
    }
    ok := true;
  }

  lemma TablesWell(d: DTbl)
    requires DecodesWith(d.pub, d)
    ensures WellFormed(d.pub)
  {
  }

  // The rest of the block: the values are discarded.
  method SkipCoefs(br: BitReader, d: DTbl, order: seq<nat>, se: nat, k0: nat) returns (ok: bool, ghost evs: seq<Event>)
    requires br.Valid() && DecodesWith(d.pub, d) && ScanOrder(order, se)
    modifies br
    ensures br.Valid() && br.Steady(old(br.Ahead()), ok)
    ensures old(br.insufficient) ==> br.insufficient
    ensures Places(evs, |order|) && forall i :: 0 <= i < |evs| ==> evs[i].at >= k0
    ensures ok && !old(br.insufficient) ==>
              if br.insufficient then ReadAc(d.pub, old(br.Rest()), k0, se) == None
              else ReadAc(d.pub, old(br.Rest()), k0, se) == Some(Parsed(evs, br.Rest()))
  {
    hide DecodesWith, br.Ahead, Coming, ReadAc, ReadItem, WellFormed, GoodState;
    TablesWell(d);
    ghost var s, dry0 := br.Rest(), br.insufficient;
    var k := k0;
    evs := [];
    PrependNothing(ReadAc(d.pub, s, k0, se));
    while k <= se
      invariant k >= k0 && br.Valid() && br.Steady(old(br.Ahead()), true)
      invariant dry0 ==> br.insufficient
      invariant Places(evs, |order|) && forall i :: 0 <= i < |evs| ==> evs[i].at >= k0
      invariant !dry0 ==>
          if br.insufficient then ReadAc(d.pub, s, k0, se) == None
          else Reached(d.pub, s, k0, se, evs, br.Rest(), k, false)
      decreases se + 1 - k
    {
      ghost var rest, dry := br.Rest(), br.insufficient;
      if !dry0 && !dry { OneItem(d.pub, s, k0, se, evs, rest, k); }
      var item;
      ok, item := ReadAcItem(br, d);
      if !ok {
        return;
      }
      match item
      case Coef(r, v) =>
        evs := evs + [Event(k, k + r, v)];
        k := k + r;
        k := k + 1;
      case SixteenZeros =>
        k := k + 15;
        k := k + 1;
      case EndOfBlock =>
        return true, evs;
    }
    ok := true;
    PastTheEnd(d.pub, br.Rest(), k, se, evs);
  }

  lemma PastTheEnd(t: HuffTbl, rest: seq<bool>, k: nat, se: nat, evs: seq<Event>)
    requires WellFormed(t) && k > se
    ensures Prepend(evs, ReadAc(t, rest, k, se)) == Some(Parsed(evs, rest))
  {
    assert evs + [] == evs;
  }

  // ---- A whole block ---------------------------------------------------------------------------------------------

  datatype BlockRead = BlockRead(diff: int, evs: seq<Event>)

  // What the bits say about a block: it does not depend on how much of it is wanted.
  function ReadBlock(dc: HuffTbl, ac: HuffTbl, s: seq<bool>, se: nat): Option<Parsed<BlockRead>>
    requires WellFormed(dc) && WellFormed(ac)
  {
    match ReadDc(dc, s)
    case None => None
    case Some(Parsed(diff, s1)) =>
      match ReadAc(ac, s1, 1, se)
      case None => None
      case Some(Parsed(evs, s2)) => Some(Parsed(BlockRead(diff, evs), s2))
  }

  // What the block holds afterwards, of which the first limit coefficients are wanted.
  function Stored(order: seq<nat>, b: seq<int>, dc: int, evs: seq<Event>, limit: nat): (c: seq<int>)
    requires |b| == 64 && (forall i :: 0 <= i < |order| ==> order[i] < 64) && Places(evs, |order|)
    ensures |c| == 64
  {
    if limit == 0 then b else Apply(order, b[0 := ToJcoef(dc)], evs, limit)
  }

  predicate BlockDone(spec: Option<Parsed<BlockRead>>, order: seq<nat>, limit: nat, before: seq<int>, after: seq<int>,
      lastDc: int, dc: int,
                      insufficient: bool, rest: seq<bool>)
  {
    match spec
    case None => insufficient
    case Some(Parsed(BlockRead(diff, evs), rest')) =>
      && !insufficient && rest == rest'
      && dc == (if limit == 0 then lastDc else lastDc + diff)
      && |before| == 64 && (forall i :: 0 <= i < |order| ==> order[i] < 64) && Places(evs, |order|)
      && after == Stored(order, before, lastDc + diff, evs, limit)
  }

  method DecodeBlock(br: BitReader, dcD: DTbl, acD: DTbl, block: array<int>, order: seq<nat>, se: nat, limit: nat,
      lastDc: int)
    returns (ok: bool, dc: int)
    requires br.Valid() && DecodesWith(dcD.pub, dcD) && DcTable(dcD.pub) && DecodesWith(acD.pub, acD)
    requires block.Length == 64 && ScanOrder(order, se) && limit <= se + 1
    modifies br, block
    ensures br.Valid() && br.Steady(old(br.Ahead()), ok)
    ensures old(br.insufficient) ==> br.insufficient
    ensures ok && !old(br.insufficient) ==>
              BlockDone(ReadBlock(dcD.pub, acD.pub, old(br.Rest()), se), order, limit, old(block[..]), block[..],
                  lastDc, dc,
                        br.insufficient, br.Rest())
  {
    hide DecodesWith, br.Ahead, Coming, ReadAc, ReadDc, WellFormed, GoodState, DcTable;
    TablesWell(dcD);
    TablesWell(acD);
    ghost var b := block[..];
    dc := lastDc;
    var diff;
    ok, diff := ReadDiff(br, dcD);
    if !ok {
      return;
    }
    var k, done := 1, false;
    ghost var s1, evs, dry1 := br.Rest(), [], br.insufficient;
    if limit != 0 {
      dc := lastDc + diff;
      b := b[0 := ToJcoef(dc)];
      block[0] := ToJcoef(dc);
      assert block[..] == b;
      ok, k, done, evs := StoreCoefs(br, acD, block, order, se, limit);
      if !ok {
        return;
      }
    }
    if !done {
      ghost var s2, dry2, more := br.Rest(), br.insufficient, [];
      ok, more := SkipCoefs(br, acD, order, se, k);
      if !ok {
        return;
      }
      if limit != 0 { ApplyBeyond(order, b, evs, more, limit); }
      PrependNothing(ReadAc(acD.pub, s1, 1, se));
      evs := evs + more;
    }
  }
}
