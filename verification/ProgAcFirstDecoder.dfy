// decode_mcu_AC_first of jdhuff.c.
module ProgAcFirstDecoder {
  import opened Coefs
  import opened Bytes
  import opened BitString
  import opened HuffGen
  import opened HuffCode
  import opened HuffDerived
  import opened HuffBitReader
  import opened HuffDecode
  import opened HuffTokens
  import opened HuffBlock
  import opened HuffSeqDecoder
  import opened ProgRead

  // (JCOEF) (s << Al)
  function Scaled(v: int, al: nat): int {
    ToJcoef(v * Pow2(al))
  }

  predicate Reach(found: seq<Found>, n: nat) {
    forall i :: 0 <= i < |found| ==> found[i].k < n
  }

  // place also covers the places that a run in corrupt data can lead to.
  function Placed(place: seq<nat>, al: nat, b: seq<int>, found: seq<Found>): (c: seq<int>)
    requires |b| == 64 && (forall i :: 0 <= i < |place| ==> place[i] < 64) && Reach(found, |place|)
    ensures |c| == 64
  {
    if found == [] then b
    else
      var f := found[|found| - 1];
      Placed(place, al, b, found[..|found| - 1])[place[f.k] := Scaled(f.v, al)]
  }

  lemma StoredSnoc(place: seq<nat>, al: nat, b: seq<int>, found: seq<Found>, f: Found)
    requires |b| == 64 && (forall i :: 0 <= i < |place| ==> place[i] < 64) && Reach(found, |place|) && f.k < |place|
    ensures Reach(found + [f], |place|)
        && Placed(place, al, b, found + [f]) == Placed(place, al, b, found)[place[f.k] := Scaled(f.v, al)]
  {
    assert (found + [f])[..|found|] == found;
  }

  method ReadFirstItemOf(br: BitReader, d: DTbl) returns (ok: bool, item: FirstItem)
    requires br.Valid() && DecodesWith(d.pub, d)
    modifies br
    ensures br.Valid() && br.Steady(old(br.Ahead()), ok) && (old(br.insufficient) ==> br.insufficient)
    ensures ok && item.NewCoef? ==> item.r <= 15
    ensures ok && item.Run? ==> item.e > 0
    ensures ok && !old(br.insufficient) ==> Got(ReadFirstItem(d.pub, old(br.Rest())), item, br)
  {
    hide DecodeSym, DecodesWith, br.Ahead, Coming, TakeBits;
    var s;
    item := Skip16;
    ok, s := DecodeSymbol(br, d);
    if !ok {
      return;
    }
    var r := s / 16;
    s := s % 16;
    if s != 0 {
      var x;
      ok, x := br.Get(s);
      if !ok {
        return;
      }
      item := NewCoef(r, Extend(x, s));
    } else if r != 15 {
      var e := Pow2(r);
      if r != 0 {
        var x;
        ok, x := br.Get(r);
        if !ok {
          return;
        }
        e := e + x;
      }
      item := Run(e);
    }
  }

  lemma FoundTwice(a: seq<Found>, b: seq<Found>, p: Option<Parsed<BandRead>>)
    ensures PrependFound(a, PrependFound(b, p)) == PrependFound(a + b, p)
  {
    if p.Some? { assert a + (b + p.value.value.found) == (a + b) + p.value.value.found; }
  }

  // What the whole block reads as is what has been found, and what is left.
  predicate FirstTrack(whole: Option<Parsed<BandRead>>, found: seq<Found>, left: Option<Parsed<BandRead>>, dry: bool) {
    whole.Some? ==> !dry && whole == PrependFound(found, left)
  }

  lemma FirstItemTrack(t: HuffTbl, whole: Option<Parsed<BandRead>>, found: seq<Found>, n: nat, k: nat, rest: seq<bool>,
      dry: bool,
                       item: FirstItem, rest': seq<bool>, dry': bool)
    requires WellFormed(t) && k < n && FirstTrack(whole, found, ReadBand(t, rest, n, k), dry)
    requires !dry ==> match ReadFirstItem(t, rest)
                      case None => dry'
                      case Some(p) => !dry' && item == p.value && rest' == p.rest
    requires item.Run? ==> item.e > 0
    ensures item.NewCoef? ==>
        FirstTrack(whole, found + [Found(k + item.r, item.v)], ReadBand(t, rest', n, k + item.r + 1), dry')
    ensures item.Skip16? ==> FirstTrack(whole, found, ReadBand(t, rest', n, k + 16), dry')
    ensures item.Run? ==> FirstTrack(whole, found, Some(Parsed(BandRead([], item.e - 1), rest')), dry')
  {
    hide ReadFirstItem, WellFormed;
    if whole.Some? && item.NewCoef? {
      var f, more := Found(k + item.r, item.v), ReadBand(t, rest', n, k + item.r + 1);
      PrependNone(more);
      AddPrepend(f, [], more);
      assert [f] + [] == [f];
      FoundTwice(found, [f], more);
    }
  }

  // u is b with some of the coefficients placed.
  predicate PartlyPlaced(place: seq<nat>, al: nat, b: seq<int>, found: seq<Found>, u: seq<int>) {
    && |b| == 64 && (forall i :: 0 <= i < |place| ==> place[i] < 64) && Reach(found, |place|)
    && exists n :: 0 <= n <= |found| && u == Placed(place, al, b, found[..n])
  }

  // At each position the outcome is what was there before or does not depend on it.
  lemma {:induction false} PlacedOver(place: seq<nat>, al: nat, u: seq<int>, b: seq<int>, found: seq<Found>, p: nat)
    requires |u| == |b| == 64 && (forall i :: 0 <= i < |place| ==> place[i] < 64) && Reach(found, |place|) && p < 64
    ensures u[p] == b[p] || (exists f <- found :: place[f.k] == p) ==>
        Placed(place, al, u, found)[p] == Placed(place, al, b, found)[p]
    ensures (forall f <- found :: place[f.k] != p) ==> Placed(place, al, b, found)[p] == b[p]
    decreases |found|
  {
    hide Scaled;
    if found != [] {
      var n := |found| - 1;
      PlacedOver(place, al, u, b, found[..n], p);
      assert found == found[..n] + [found[n]];
    }
  }

  // An interrupted call has assigned nothing but what will be assigned again.
  lemma PlacedAgain(place: seq<nat>, al: nat, b: seq<int>, found: seq<Found>, u: seq<int>)
    requires PartlyPlaced(place, al, b, found, u)
    ensures |u| == 64 && Placed(place, al, u, found) == Placed(place, al, b, found)
  {
    hide Placed;
    var n :| 0 <= n <= |found| && u == Placed(place, al, b, found[..n]);
    forall p | 0 <= p < 64 ensures Placed(place, al, u, found)[p] == Placed(place, al, b, found)[p] {
      PlacedOver(place, al, u, b, found, p);
      PlacedOver(place, al, b, b, found[..n], p);
    }
  }

  lemma PartlyByTrack(place: seq<nat>, al: nat, b: seq<int>, whole: Option<Parsed<BandRead>>, found: seq<Found>,
      left: Option<Parsed<BandRead>>,
                      dry: bool, u: seq<int>, n: nat)
    requires |b| == 64 && (forall i :: 0 <= i < |place| ==> place[i] < 64) && Reach(found, |place|)
        && u == Placed(place, al, b, found)
    requires FirstTrack(whole, found, left, dry) && (whole.Some? ==> Reach(whole.value.value.found, n)) && n <= |place|
    ensures whole.Some? ==> PartlyPlaced(place, al, b, whole.value.value.found, u)
  {
    hide Placed;
    if whole.Some? { assert whole.value.value.found[..|found|] == found; }
  }

  // A symbol leads at most 15 places too far.
  lemma {:induction false} BandReach(t: HuffTbl, s: seq<bool>, n: nat, k: nat)
    requires WellFormed(t)
    ensures ReadBand(t, s, n, k).Some? ==> Reach(ReadBand(t, s, n, k).value.value.found, n + 15)
    decreases if k >= n then 0 else n - k
  {
    hide WellFormed, ReadFirstItem;
    if k < n {
      var p := ReadFirstItem(t, s);
      if p.Some? {
        match p.value.value
        case NewCoef(r, v) => RunAtMost15(t, s); BandReach(t, p.value.rest, n, k + r + 1);
        case Skip16 => BandReach(t, p.value.rest, n, k + 16);
        case Run(e) =>
      }
    }
  }

  lemma RunAtMost15(t: HuffTbl, s: seq<bool>)
    requires WellFormed(t)
    ensures var p := ReadFirstItem(t, s); p.Some? && p.value.value.NewCoef? ==> p.value.value.r <= 15
  {
    hide TakeBits, CodeLength, Num;
  }

  // One block of the first scan of a band.
  method DecodeAcFirst(br: BitReader, d: DTbl, block: array<int>, order: seq<nat>, ss: nat, se: nat, al: nat, run0: nat)
    returns (ok: bool, run: nat)
    requires br.Valid() && DecodesWith(d.pub, d) && WellFormed(d.pub) && block.Length == 64
    requires 1 <= ss <= se < 64 && se + 16 < |order| && forall i :: 0 <= i < |order| ==> order[i] < 64
    modifies br, block
    ensures br.Valid() && br.Steady(old(br.Ahead()), ok) && (old(br.insufficient) ==> br.insufficient)
    ensures !ok && !old(br.insufficient) ==>
              var p := ReadFirst(d.pub, old(br.Rest()), se - ss + 1, run0);
              p.Some? ==> PartlyPlaced(order[ss..], al, old(block[..]), p.value.value.found, block[..])
    ensures ok && !old(br.insufficient) ==>
              var p := ReadFirst(d.pub, old(br.Rest()), se - ss + 1, run0);
              p.Some? ==>
                && !br.insufficient && br.Rest() == p.value.rest && run == p.value.value.run
                && Reach(p.value.value.found, |order| - ss)
                && block[..] == Placed(order[ss..], al, old(block[..]), p.value.value.found)
  {
    hide DecodesWith, br.Ahead, Coming, ReadBand, ReadFirstItem, WellFormed, GoodState, Placed, ToJcoef, FirstTrack,
        PartlyPlaced;
    ok, run := true, run0;
    if run > 0 {
      run := run - 1;
      NothingStored(order[ss..], al, block[..]);
      return;
    }
    ghost var s, dry0, b0 := br.Rest(), br.insufficient, block[..];
    ghost var whole := ReadBand(d.pub, s, se - ss + 1, 0);
    ghost var found: seq<Found> := [];
    ghost var place := order[ss..];
    FirstStart(d.pub, s, se - ss + 1, place, al, b0);
    BandReach(d.pub, s, se - ss + 1, 0);
    var k := ss;
    while k <= se
      invariant ss <= k && br.Valid() && br.Steady(old(br.Ahead()), true) && (old(br.insufficient) ==> br.insufficient)
      invariant Reach(found, |order| - ss) && block[..] == Placed(place, al, b0, found)
      invariant !dry0 ==> FirstTrack(whole, found, ReadBand(d.pub, br.Rest(), se - ss + 1, k - ss), br.insufficient)
      decreases se + 1 - k
    {
      ghost var rest, dry := br.Rest(), br.insufficient;
      var item;
      ok, item := ReadFirstItemOf(br, d);
      if !ok {
        if !dry0 {
          PartlyByTrack(place, al, b0, whole, found, ReadBand(d.pub, rest, se - ss + 1, k - ss), dry, block[..],
              se - ss + 16);
        }
        return;
      }
      if !dry0 {
        FirstItemTrack(d.pub, whole, found, se - ss + 1, k - ss, rest, dry, item, br.Rest(), br.insufficient);
      }
      match item
      case NewCoef(r, v) =>
        StoredSnoc(place, al, b0, found, Found(k - ss + r, v));
        found := found + [Found(k - ss + r, v)];
        k := k + r;
        ghost var after := block[..][order[k] := Scaled(v, al)];
        block[order[k]] := ToJcoef(v * Pow2(al));
        assert block[..] == after;
        k := k + 1;
      case Skip16 =>
        k := k + 15;
        k := k + 1;
      case Run(e) =>
        run := e - 1;
        if !dry0 { TrackedRun(whole, found, e - 1, br.Rest(), br.insufficient); }
        return;
    }
    if !dry0 { BandDone(d.pub, whole, found, se - ss + 1, k - ss, br.Rest(), br.insufficient); }
  }

  lemma NothingStored(place: seq<nat>, al: nat, b: seq<int>)
    requires |b| == 64 && forall i :: 0 <= i < |place| ==> place[i] < 64
    ensures Placed(place, al, b, []) == b
  {
  }

  lemma FirstStart(t: HuffTbl, s: seq<bool>, n: nat, place: seq<nat>, al: nat, b: seq<int>)
    requires WellFormed(t) && |b| == 64 && forall i :: 0 <= i < |place| ==> place[i] < 64
    ensures Placed(place, al, b, []) == b && FirstTrack(ReadBand(t, s, n, 0), [], ReadBand(t, s, n, 0), false)
  {
    hide ReadBand;
    PrependNone(ReadBand(t, s, n, 0));
  }

  lemma TrackedRun(whole: Option<Parsed<BandRead>>, found: seq<Found>, run: nat, rest: seq<bool>, dry: bool)
    requires FirstTrack(whole, found, Some(Parsed(BandRead([], run), rest)), dry)
    ensures whole.Some? ==> !dry && whole == Some(Parsed(BandRead(found, run), rest))
  {
    assert found + [] == found;
  }

  lemma BandDone(t: HuffTbl, whole: Option<Parsed<BandRead>>, found: seq<Found>, n: nat, k: nat, rest: seq<bool>,
      dry: bool)
    requires WellFormed(t) && k >= n && FirstTrack(whole, found, ReadBand(t, rest, n, k), dry)
    ensures whole.Some? ==> !dry && whole == Some(Parsed(BandRead(found, 0), rest))
  {
    assert found + [] == found;
  }
}
