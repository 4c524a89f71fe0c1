// decode_mcu_AC_refine of jdhuff.c, with its undo: whenever the source has to wait the
// block is left so that starting over gives what an uninterrupted call would have given.
module ProgAcRefineDecoder {
  import opened Coefs
  import opened Bytes
  import opened BitString
  import opened HuffGen
  import opened HuffCode
  import opened HuffDerived
  import opened HuffBitReader
  import opened HuffDecode
  import opened HuffBlock
  import opened HuffSeqDecoder
  import opened ProgRefine
  import opened ProgBlocks

  // ---- What is to be decoded ---------------------------------------------------------------------------------------

  // Which coefficients of the band are known already.
  function KnownIn(place: seq<nat>, b: seq<int>): (nz: seq<bool>)
    requires |b| == 64 && GoodPlaces(place)
    ensures |nz| == |place| && forall k :: 0 <= k < |place| ==> nz[k] == (b[place[k]] != 0)
  {
    seq(|place|, k requires 0 <= k < |place| => b[place[k]] != 0)
  }

  // ---- The events read are in order and fit the block --------------------------------------------------------------

  predicate Proper(evs: seq<Change>, nz: seq<bool>, from: nat) {
    && InBand(evs, |nz|) && Ascending(evs)
    && (forall i :: 0 <= i < |evs| ==> evs[i].k >= from && (evs[i].New? <==> !nz[evs[i].k]))
  }

  lemma {:induction false} PassProper(s: seq<bool>, nz: seq<bool>, k: nat, r: nat)
    ensures var w := Pass(s, nz, k, r);
            w.Some? ==>
                Proper(w.value.evs, nz, k)
                && (forall i :: 0 <= i < |w.value.evs| ==> w.value.evs[i].k < w.value.k)
                && (w.value.k < |nz| ==> !nz[w.value.k])
    decreases |nz| - k
  {
    hide TakeBits;
    if k < |nz| {
      if nz[k] {
        if TakeBits(s, 1).Some? { PassProper(TakeBits(s, 1).value.rest, nz, k + 1, r); }
      } else if r > 0 {
        PassProper(s, nz, k + 1, r - 1);
      }
    }
  }

  lemma {:induction false} PassAllProper(s: seq<bool>, nz: seq<bool>, k: nat)
    ensures PassAll(s, nz, k).Some? ==> Proper(PassAll(s, nz, k).value.evs, nz, k)
    decreases |nz| - k
  {
    hide TakeBits;
    if k < |nz| {
      if nz[k] {
        if TakeBits(s, 1).Some? { PassAllProper(TakeBits(s, 1).value.rest, nz, k + 1); }
      } else {
        PassAllProper(s, nz, k + 1);
      }
    }
  }

  lemma ProperJoin(a: seq<Change>, b: seq<Change>, nz: seq<bool>, from: nat, mid: nat)
    requires Proper(a, nz, from) && Proper(b, nz, mid) && from <= mid && forall i :: 0 <= i < |a| ==> a[i].k < mid
    ensures Proper(a + b, nz, from)
  {
  }

  lemma {:induction false} PlacesProper(t: HuffTbl, s: seq<bool>, nz: seq<bool>, k: nat)
    requires WellFormed(t)
    ensures ReadPlaces(t, s, nz, k).Some? ==> Proper(ReadPlaces(t, s, nz, k).value.value.evs, nz, k)
    decreases if k >= |nz| then 0 else |nz| - k
  {
    hide ReadRefineItem, Proper, PassAll, Pass, WellFormed;
    if k >= |nz| {
      NothingProper(nz, k);
    } else if ReadRefineItem(t, s).Some? {
      var item, s1 := ReadRefineItem(t, s).value.value, ReadRefineItem(t, s).value.rest;
      match item
      case EndRun(e) => PassAllProper(s1, nz, k);
      case Zeros16 =>
        PassProper(s1, nz, k, 15);
        if Pass(s1, nz, k, 15).Some? {
          var w := Pass(s1, nz, k, 15).value;
          PlacesProper(t, w.rest, nz, w.k + 1);
          if ReadPlaces(t, w.rest, nz, w.k + 1).Some? {
            ProperJoin(w.evs, ReadPlaces(t, w.rest, nz, w.k + 1).value.value.evs, nz, k, w.k + 1);
          }
        }
      case NewOne(r, neg) =>
        PassProper(s1, nz, k, r);
        if Pass(s1, nz, k, r).Some? {
          var w := Pass(s1, nz, k, r).value;
          if w.k < |nz| {
            PlacesProper(t, w.rest, nz, w.k + 1);
            OneProper(nz, w.k, neg);
            ProperJoin(w.evs, [New(w.k, neg)], nz, k, w.k);
            if ReadPlaces(t, w.rest, nz, w.k + 1).Some? {
              ProperJoin(w.evs + [New(w.k, neg)], ReadPlaces(t, w.rest, nz, w.k + 1).value.value.evs, nz, k, w.k + 1);
            }
          }
        }
    }
  }

  lemma NothingProper(nz: seq<bool>, k: nat)
    ensures Proper([], nz, k)
  {
  }

  lemma OneProper(nz: seq<bool>, k: nat, neg: bool)
    requires k < |nz| && !nz[k]
    ensures Proper([New(k, neg)], nz, k)
  {
  }

  // ---- The state in the middle of a block --------------------------------------------------------------------------

  // evs have been read and applied; everything from place k on is untouched.
  predicate Applied(place: seq<nat>, al: nat, b0: seq<int>, b: seq<int>, evs: seq<Change>, k: nat) {
    && |b0| == |b| == 64 && GoodPlaces(place) && InBand(evs, |place|)
    && b == Changed(place, al, b0, evs)
    && (forall i :: 0 <= i < |evs| ==> evs[i].k < k)
  }

  lemma Untouched(place: seq<nat>, al: nat, b0: seq<int>, b: seq<int>, evs: seq<Change>, k: nat)
    requires Applied(place, al, b0, b, evs, k) && k < |place|
    ensures b[place[k]] == b0[place[k]]
  {
    ChangedAt(place, al, b0, evs, k);
    NoChangeAt(al, b0[place[k]], evs, k);
  }

  lemma AppliedMore(place: seq<nat>, al: nat, b0: seq<int>, b: seq<int>, evs: seq<Change>, k: nat, e: Change, k': nat)
    requires Applied(place, al, b0, b, evs, k) && e.k < |place| && e.k < k' && k <= k'
    ensures Applied(place, al, b0, OneChange(place, al, b, e), evs + [e], k')
  {
    hide OneChange;
    ChangedSnoc(place, al, b0, evs, e);
  }

  lemma AppliedFurther(place: seq<nat>, al: nat, b0: seq<int>, b: seq<int>, evs: seq<Change>, k: nat, k': nat)
    requires Applied(place, al, b0, b, evs, k) && k <= k'
    ensures Applied(place, al, b0, b, evs, k')
  {
  }

  // What is left to be read while the zeros in front of an item are passed.
  function AfterPass(t: HuffTbl, nz: seq<bool>, item: RefineItem, w: Option<Walk>): Option<Parsed<RefineRead>>
    requires WellFormed(t)
  {
    match w
    case None => None
    case Some(Walk(evs, k', s2)) =>
      if item.NewOne? then
        if k' >= |nz| then None else PrependEvs(evs + [New(k', item.neg)], ReadPlaces(t, s2, nz, k' + 1))
      else PrependEvs(evs, ReadPlaces(t, s2, nz, k' + 1))
  }

  lemma PlacesItem(t: HuffTbl, s: seq<bool>, nz: seq<bool>, k: nat)
    requires WellFormed(t) && k < |nz|
    ensures var p := ReadRefineItem(t, s);
            && (p == None ==> ReadPlaces(t, s, nz, k) == None)
            && (p.Some? && p.value.value.EndRun? ==>
                  var e := p.value.value.e;
                  ReadPlaces(t, s, nz, k) == WalkOnly(PassAll(p.value.rest, nz, k), if e > 0 then e - 1 else 0))
            && (p.Some? && !p.value.value.EndRun? ==>
                  ReadPlaces(t, s, nz, k) == AfterPass(t, nz, p.value.value,
                      Pass(p.value.rest, nz, k, if p.value.value.NewOne? then p.value.value.r else 15)))
  {
    hide ReadRefineItem, Pass, PassAll;
  }

  lemma PassStep(t: HuffTbl, s: seq<bool>, nz: seq<bool>, item: RefineItem, k: nat, r: nat)
    requires WellFormed(t) && k < |nz|
    ensures nz[k] && TakeBits(s, 1).Some? ==>
              AfterPass(t, nz, item, Pass(s, nz, k, r))
              == PrependEvs([Correct(k, TakeBits(s, 1).value.value == 1)],
                  AfterPass(t, nz, item, Pass(TakeBits(s, 1).value.rest, nz, k + 1, r)))
    ensures nz[k] && TakeBits(s, 1).None? ==> AfterPass(t, nz, item, Pass(s, nz, k, r)) == None
    ensures !nz[k] && r > 0 ==> Pass(s, nz, k, r) == Pass(s, nz, k + 1, r - 1)
    ensures !nz[k] && r == 0 ==> Pass(s, nz, k, r) == Some(Walk([], k, s))
  {
    hide TakeBits, ReadPlaces;
    if nz[k] && TakeBits(s, 1).Some? {
      var e := Correct(k, TakeBits(s, 1).value.value == 1);
      var w := Pass(TakeBits(s, 1).value.rest, nz, k + 1, r);
      if w.Some? {
        var x := w.value;
        if item.NewOne? {
          if x.k < |nz| {
            assert ([e] + x.evs) + [New(x.k, item.neg)] == [e] + (x.evs + [New(x.k, item.neg)]);
            EvsTwice([e], x.evs + [New(x.k, item.neg)], ReadPlaces(t, x.rest, nz, x.k + 1));
          }
        } else {
          EvsTwice([e], x.evs, ReadPlaces(t, x.rest, nz, x.k + 1));
        }
      }
    }
  }

  // ---- The steps ---------------------------------------------------------------------------------------------------

  // What the whole block reads as is what has been read, evs, and what is left.
  predicate OnTrack(whole: Option<Parsed<RefineRead>>, evs: seq<Change>, left: Option<Parsed<RefineRead>>,
      place: seq<nat>, al: nat,
                    b0: seq<int>, b: seq<int>, k: nat, dry: bool)
  {
    whole.Some? ==> !dry && whole == PrependEvs(evs, left) && Applied(place, al, b0, b, evs, k)
  }

  // The block in the state in which reading had to stop.
  predicate Halted(whole: Option<Parsed<RefineRead>>, evs: seq<Change>, place: seq<nat>, al: nat, b0: seq<int>,
      b: seq<int>) {
    whole.Some? ==> evs <= whole.value.value.evs && Applied(place, al, b0, b, evs, |place|)
  }

  lemma TrackHalts(whole: Option<Parsed<RefineRead>>, evs: seq<Change>, left: Option<Parsed<RefineRead>>,
      place: seq<nat>, al: nat,
                   b0: seq<int>, b: seq<int>, k: nat, dry: bool)
    requires OnTrack(whole, evs, left, place, al, b0, b, k, dry) && k <= |place|
    ensures Halted(whole, evs, place, al, b0, b)
  {
    if whole.Some? { AppliedFurther(place, al, b0, b, evs, k, |place|); }
  }

  lemma FixIsJcoef(c: int, al: nat, bit: bool)
    requires IsJcoef(c)
    ensures IsJcoef(Fix(c, al, bit))
  {
  }

  // The correction bit for a known coefficient.
  method CorrectionBit(br: BitReader, block: array<int>, pos: nat, al: nat) returns (ok: bool, ghost bit: bool)
    requires br.Valid() && block.Length == 64 && pos < 64 && al <= MAX_AL && JcoefBlock(block[..])
    modifies br, block
    ensures br.Valid() && br.Steady(old(br.Ahead()), ok) && (old(br.insufficient) ==> br.insufficient)
    ensures JcoefBlock(block[..])
    ensures block[..] == if ok then old(block[..])[pos := Fix(old(block[pos]), al, bit)] else old(block[..])
    ensures ok && !old(br.insufficient) ==>
              br.Agrees(TakeBits(old(br.Rest()), 1), Bit(bit))
  {
    hide Coming, br.Ahead, ToJcoef, TakeBits;
    var x;
    ok, x := br.Get(1);
    bit := x == 1;
    ghost var b := block[..];
    if !ok {
      return;
    }
    assert Pow2(1) == 2;
    FixIsJcoef(block[pos], al, bit);
    if x == 1 {
      if block[pos] / Pow2(al) % 2 == 0 {
        if block[pos] >= 0 {
          block[pos] := ToJcoef(block[pos] + Pow2(al));
        } else {
          block[pos] := ToJcoef(block[pos] - Pow2(al));
        }
      }
    }
    assert block[..] == b[pos := Fix(b[pos], al, bit)];
  }

  // One symbol of a refinement scan, with the sign of a new coefficient or the length
  // of a run. The size of a new coefficient is not looked at.
  method ReadItemOf(br: BitReader, d: DTbl) returns (ok: bool, item: RefineItem)
    requires br.Valid() && DecodesWith(d.pub, d)
    modifies br
    ensures br.Valid() && br.Steady(old(br.Ahead()), ok) && (old(br.insufficient) ==> br.insufficient)
    ensures ok && item.NewOne? ==> item.r <= 15
    ensures ok && item.EndRun? ==> item.e > 0
    ensures ok && !old(br.insufficient) ==> Got(ReadRefineItem(d.pub, old(br.Rest())), item, br)
  {
    hide DecodeSym, DecodesWith, br.Ahead, Coming, TakeBits;
    var s;
    item := Zeros16;
    ok, s := DecodeSymbol(br, d);
    if !ok {
      return;
    }
    var r := s / 16;
    s := s % 16;
    if s != 0 {
      var x;
      ok, x := br.Get(1);
      if !ok {
        return;
      }
      item := NewOne(r, x == 0);
    } else if r != 15 {
      var e := Pow2(r);
      if r != 0 {
        var x;
        ok, x := br.Get(r);
        if !ok {
          return;
        }
        e := e + x;
      }
      item := EndRun(e);
    }
  }

  // The places of the band, and one more for a run that leads out of it.
  function PlacesOf(order: seq<nat>, ss: nat, se: nat): (place: seq<nat>)
    requires ss <= se < |order|
    ensures |place| == se - ss + 1 && forall k :: 0 <= k < |place| ==> place[k] == order[ss + k]
  {
    order[ss..se + 1]
  }

  predicate GoodRefineBand(order: seq<nat>, ss: nat, se: nat, al: nat) {
    && 1 <= ss <= se < 64 && se + 1 < |order| && al <= MAX_AL
    && (forall i :: 0 <= i < |order| ==> order[i] < 64)
    && GoodPlaces(PlacesOf(order, ss, se))
  }

  // Passing the zeros and the known coefficients in front of the place that an item is for.
  method PassZeros(br: BitReader, block: array<int>, order: seq<nat>, ss: nat, se: nat, al: nat, k0: nat, r0: nat,
                   ghost t: HuffTbl, ghost item: RefineItem, ghost b0: seq<int>,
                       ghost whole: Option<Parsed<RefineRead>>, ghost evs0: seq<Change>)
    returns (ok: bool, k: nat, ghost evs: seq<Change>)
    requires br.Valid() && block.Length == 64 && GoodRefineBand(order, ss, se, al) && JcoefBlock(block[..])
        && WellFormed(t) && |b0| == 64
    requires ss <= k0 <= se
    requires var place := PlacesOf(order, ss, se);
             OnTrack(whole,
                     evs0,
                     AfterPass(t, KnownIn(place, b0), item, Pass(br.Rest(), KnownIn(place, b0), k0 - ss, r0)),
                     place, al, b0, block[..], k0 - ss, br.insufficient)
    modifies br, block
    ensures br.Valid() && br.Steady(old(br.Ahead()), ok) && (old(br.insufficient) ==> br.insufficient)
    ensures JcoefBlock(block[..])
    ensures k0 <= k <= se + 1
    ensures evs0 <= evs && (forall i :: |evs0| <= i < |evs| ==> evs[i].Correct?)
    ensures var place := PlacesOf(order, ss, se);
            if ok then
              OnTrack(whole, evs, AfterPass(t, KnownIn(place, b0), item, Some(Walk([], k - ss, br.Rest()))),
                      place, al, b0, block[..], k - ss, br.insufficient)
            else Halted(whole, evs, place, al, b0, block[..])
  {
    hide Coming, br.Ahead, AfterPass, Pass, Applied, OnTrack, Halted, TakeBits, Fix, WellFormed;
    ghost var place := PlacesOf(order, ss, se);
    ghost var nz := KnownIn(place, b0);
    k, evs := k0, evs0;
    var r: int := r0;
    while true
      invariant br.Valid() && br.Steady(old(br.Ahead()), true) && (old(br.insufficient) ==> br.insufficient)
          && JcoefBlock(block[..])
      invariant k0 <= k <= se && r >= 0
      invariant evs0 <= evs && (forall i :: |evs0| <= i < |evs| ==> evs[i].Correct?)
      invariant OnTrack(whole, evs, AfterPass(t, nz, item, Pass(br.Rest(), nz, k - ss, r)), place, al, b0, block[..],
          k - ss, br.insufficient)
      decreases se - k
    {
      ghost var rest, b, dry := br.Rest(), block[..], br.insufficient;
      if block[order[k]] != 0 {
        ghost var bit;
        TrackHalts(whole, evs, AfterPass(t, nz, item, Pass(rest, nz, k - ss, r)), place, al, b0, b, k - ss, dry);
        ok, bit := CorrectionBit(br, block, order[k], al);
        if !ok {
          return;
        }
        TrackCorrect(t, whole, evs, item, place, al, b0, b, k - ss, r, rest, dry, bit, br.Rest(), br.insufficient);
        evs := evs + [Correct(k - ss, bit)];
      } else {
        TrackZero(t, whole, evs, item, place, al, b0, b, k - ss, r, rest, dry);
        r := r - 1;
        if r < 0 {
          break;
        }
      }
      k := k + 1;
      if k > se {
        TrackEnd(t, whole, evs, item, place, al, b0, block[..], r, br.Rest(), br.insufficient);
        break;
      }
    }
    ok := true;
  }

  lemma TrackCorrect(t: HuffTbl, whole: Option<Parsed<RefineRead>>, evs: seq<Change>, item: RefineItem, place: seq<nat>,
      al: nat,
                     b0: seq<int>, b: seq<int>, k: nat, r: nat, rest: seq<bool>, dry: bool, bit: bool, rest': seq<bool>,
                         dry': bool)
    requires WellFormed(t) && |b0| == |b| == 64 && GoodPlaces(place) && k < |place| && b[place[k]] != 0
    requires OnTrack(whole, evs, AfterPass(t, KnownIn(place, b0), item, Pass(rest, KnownIn(place, b0), k, r)), place,
        al, b0, b, k, dry)
    requires !dry ==> match TakeBits(rest, 1)
                      case None => dry'
                      case Some(Decoded(x, more)) => !dry' && x == Bit(bit) && rest' == more
    ensures var c := b[place[k] := Fix(b[place[k]], al, bit)];
            OnTrack(whole, evs + [Correct(k, bit)],
                AfterPass(t, KnownIn(place, b0), item, Pass(rest', KnownIn(place, b0), k + 1, r)), place, al, b0, c,
                k + 1, dry')
  {
    hide AfterPass, Pass, Applied, TakeBits, Fix, WellFormed;
    if whole.Some? {
      var nz := KnownIn(place, b0);
      Untouched(place, al, b0, b, evs, k);
      PassStep(t, rest, nz, item, k, r);
      AppliedMore(place, al, b0, b, evs, k, Correct(k, bit), k + 1);
      BitValue(bit);
      EvsTwice(evs, [Correct(k, bit)], AfterPass(t, nz, item, Pass(rest', nz, k + 1, r)));
    }
  }

  lemma TrackZero(t: HuffTbl, whole: Option<Parsed<RefineRead>>, evs: seq<Change>, item: RefineItem, place: seq<nat>,
      al: nat,
                  b0: seq<int>, b: seq<int>, k: nat, r: nat, rest: seq<bool>, dry: bool)
    requires WellFormed(t) && |b0| == |b| == 64 && GoodPlaces(place) && k < |place| && b[place[k]] == 0
    requires OnTrack(whole, evs, AfterPass(t, KnownIn(place, b0), item, Pass(rest, KnownIn(place, b0), k, r)), place,
        al, b0, b, k, dry)
    ensures r > 0 ==>
        OnTrack(whole, evs, AfterPass(t, KnownIn(place, b0), item, Pass(rest, KnownIn(place, b0), k + 1, r - 1)), place,
        al, b0, b, k + 1, dry)
    ensures r == 0 ==>
        OnTrack(whole, evs, AfterPass(t, KnownIn(place, b0), item, Some(Walk([], k, rest))), place, al, b0, b, k, dry)
  {
    hide AfterPass, Pass, Applied, TakeBits, WellFormed;
    if whole.Some? {
      Untouched(place, al, b0, b, evs, k);
      PassStep(t, rest, KnownIn(place, b0), item, k, r);
      AppliedFurther(place, al, b0, b, evs, k, k + 1);
    }
  }

  lemma TrackEnd(t: HuffTbl, whole: Option<Parsed<RefineRead>>, evs: seq<Change>, item: RefineItem, place: seq<nat>,
      al: nat,
                 b0: seq<int>, b: seq<int>, r: nat, rest: seq<bool>, dry: bool)
    requires WellFormed(t) && |b0| == 64 && GoodPlaces(place)
    requires OnTrack(whole, evs, AfterPass(t, KnownIn(place, b0), item, Pass(rest, KnownIn(place, b0), |place|, r)),
        place, al, b0, b, |place|, dry)
    ensures OnTrack(whole, evs, AfterPass(t, KnownIn(place, b0), item, Some(Walk([], |place|, rest))), place, al, b0, b,
        |place|, dry)
  {
  }

  // The rest of the block once a run has begun: only correction bits.
  method PassRest(br: BitReader, block: array<int>, order: seq<nat>, ss: nat, se: nat, al: nat, k0: nat,
                  ghost b0: seq<int>, ghost whole: Option<Parsed<RefineRead>>, ghost evs0: seq<Change>, ghost run: nat)
    returns (ok: bool, ghost evs: seq<Change>)
    requires br.Valid() && block.Length == 64 && GoodRefineBand(order, ss, se, al) && JcoefBlock(block[..])
        && |b0| == 64
    requires ss <= k0 <= se + 1
    requires var place := PlacesOf(order, ss, se);
             OnTrack(whole, evs0, WalkOnly(PassAll(br.Rest(), KnownIn(place, b0), k0 - ss), run), place, al, b0,
                 block[..], k0 - ss, br.insufficient)
    modifies br, block
    ensures br.Valid() && br.Steady(old(br.Ahead()), ok) && (old(br.insufficient) ==> br.insufficient)
        && JcoefBlock(block[..])
    ensures evs0 <= evs && (forall i :: |evs0| <= i < |evs| ==> evs[i].Correct?)
    ensures var place := PlacesOf(order, ss, se);
            if ok then OnTrack(whole, evs, Some(Parsed(RefineRead([], run), br.Rest())), place, al, b0, block[..],
                |place|, br.insufficient)
            else Halted(whole, evs, place, al, b0, block[..])
  {
    hide Coming, br.Ahead, PassAll, Applied, OnTrack, Halted, TakeBits, Fix;
    ghost var place := PlacesOf(order, ss, se);
    ghost var nz := KnownIn(place, b0);
    evs := evs0;
    for k := k0 to se + 1
      invariant br.Valid() && br.Steady(old(br.Ahead()), true) && (old(br.insufficient) ==> br.insufficient)
          && JcoefBlock(block[..])
      invariant evs0 <= evs && (forall i :: |evs0| <= i < |evs| ==> evs[i].Correct?)
      invariant OnTrack(whole, evs, WalkOnly(PassAll(br.Rest(), nz, k - ss), run), place, al, b0, block[..], k - ss,
          br.insufficient)
    {
      ghost var rest, b, dry := br.Rest(), block[..], br.insufficient;
      if block[order[k]] != 0 {
        ghost var bit;
        TrackHalts(whole, evs, WalkOnly(PassAll(rest, nz, k - ss), run), place, al, b0, b, k - ss, dry);
        ok, bit := CorrectionBit(br, block, order[k], al);
        if !ok {
          return;
        }
        RestCorrect(whole, evs, place, al, b0, b, k - ss, run, rest, dry, bit, br.Rest(), br.insufficient);
        evs := evs + [Correct(k - ss, bit)];
      } else {
        RestZero(whole, evs, place, al, b0, b, k - ss, run, rest, dry);
      }
    }
    RestEnd(whole, evs, place, al, b0, block[..], run, br.Rest(), br.insufficient);
    ok := true;
  }

  lemma RestCorrect(whole: Option<Parsed<RefineRead>>, evs: seq<Change>, place: seq<nat>, al: nat, b0: seq<int>,
      b: seq<int>, k: nat, run: nat,
                    rest: seq<bool>, dry: bool, bit: bool, rest': seq<bool>, dry': bool)
    requires |b0| == |b| == 64 && GoodPlaces(place) && k < |place| && b[place[k]] != 0
    requires OnTrack(whole, evs, WalkOnly(PassAll(rest, KnownIn(place, b0), k), run), place, al, b0, b, k, dry)
    requires !dry ==> match TakeBits(rest, 1)
                      case None => dry'
                      case Some(Decoded(x, more)) => !dry' && x == Bit(bit) && rest' == more
    ensures var c := b[place[k] := Fix(b[place[k]], al, bit)];
            OnTrack(whole, evs + [Correct(k, bit)], WalkOnly(PassAll(rest', KnownIn(place, b0), k + 1), run), place, al,
                b0, c, k + 1, dry')
  {
    hide Applied, TakeBits, Fix;
    if whole.Some? {
      var nz := KnownIn(place, b0);
      Untouched(place, al, b0, b, evs, k);
      AppliedMore(place, al, b0, b, evs, k, Correct(k, bit), k + 1);
      BitValue(bit);
      EvsTwice(evs, [Correct(k, bit)], WalkOnly(PassAll(rest', nz, k + 1), run));
    }
  }

  lemma RestZero(whole: Option<Parsed<RefineRead>>, evs: seq<Change>, place: seq<nat>, al: nat, b0: seq<int>,
      b: seq<int>, k: nat, run: nat,
                 rest: seq<bool>, dry: bool)
    requires |b0| == |b| == 64 && GoodPlaces(place) && k < |place| && b[place[k]] == 0
    requires OnTrack(whole, evs, WalkOnly(PassAll(rest, KnownIn(place, b0), k), run), place, al, b0, b, k, dry)
    ensures OnTrack(whole, evs, WalkOnly(PassAll(rest, KnownIn(place, b0), k + 1), run), place, al, b0, b, k + 1, dry)
  {
    hide Applied, TakeBits;
    if whole.Some? {
      Untouched(place, al, b0, b, evs, k);
      AppliedFurther(place, al, b0, b, evs, k, k + 1);
    }
  }

  lemma RestEnd(whole: Option<Parsed<RefineRead>>, evs: seq<Change>, place: seq<nat>, al: nat, b0: seq<int>,
      b: seq<int>, run: nat,
                rest: seq<bool>, dry: bool)
    requires |b0| == 64 && GoodPlaces(place)
    requires OnTrack(whole, evs, WalkOnly(PassAll(rest, KnownIn(place, b0), |place|), run), place, al, b0, b, |place|,
        dry)
    ensures OnTrack(whole, evs, Some(Parsed(RefineRead([], run), rest)), place, al, b0, b, |place|, dry)
  {
    hide Applied;
  }

  // ---- The new coefficients of a call ------------------------------------------------------------------------------

  // newnz lists the places of the new coefficients among evs.
  predicate Remembered(newnz: seq<nat>, evs: seq<Change>, place: seq<nat>) {
    && (forall i :: 0 <= i < |evs| && evs[i].New? ==> evs[i].k < |place| && place[evs[i].k] in newnz)
    && (forall p <- newnz :: exists i :: 0 <= i < |evs| && evs[i].New? && evs[i].k < |place| && place[evs[i].k] == p)
  }

  lemma RememberedSame(newnz: seq<nat>, evs: seq<Change>, evs': seq<Change>, place: seq<nat>)
    requires Remembered(newnz, evs, place) && evs <= evs' && forall i :: |evs| <= i < |evs'| ==> evs'[i].Correct?
    ensures Remembered(newnz, evs', place)
  {
    forall p <- newnz ensures exists i ::
        0 <= i < |evs'| && evs'[i].New? && evs'[i].k < |place| && place[evs'[i].k] == p {
      var i :| 0 <= i < |evs| && evs[i].New? && evs[i].k < |place| && place[evs[i].k] == p;
      assert evs'[i] == evs[i];
    }
    forall i | 0 <= i < |evs'| && evs'[i].New? ensures evs'[i].k < |place| && place[evs'[i].k] in newnz {
      assert i < |evs| && evs'[i] == evs[i];
    }
  }

  lemma RememberedMore(newnz: seq<nat>, evs: seq<Change>, place: seq<nat>, k: nat, neg: bool)
    requires Remembered(newnz, evs, place) && k < |place|
    ensures Remembered(newnz + [place[k]], evs + [New(k, neg)], place)
  {
    var more, n := evs + [New(k, neg)], newnz + [place[k]];
    forall p <- n ensures exists i :: 0 <= i < |more| && more[i].New? && more[i].k < |place| && place[more[i].k] == p {
      if p in newnz {
        var i :| 0 <= i < |evs| && evs[i].New? && evs[i].k < |place| && place[evs[i].k] == p;
        assert more[i] == evs[i];
      } else {
        assert more[|evs|] == New(k, neg);
      }
    }
  }

  // Re-zeroing the new coefficients undoes them and nothing else.
  lemma UndoneBy(place: seq<nat>, al: nat, b0: seq<int>, b: seq<int>, evs: seq<Change>, all: seq<Change>,
      newnz: seq<nat>, u: seq<int>)
    requires Applied(place, al, b0, b, evs, |place|) && Remembered(newnz, evs, place)
    requires evs <= all && InBand(all, |place|) && Ascending(all) && Fits(place, b0, all)
    requires |u| == 64 && forall p :: 0 <= p < 64 ==> u[p] == if p in newnz then 0 else b[p]
    ensures Undone(place, al, b0, evs, u)
  {
    hide Changed, ValueAfter;
    forall k | 0 <= k < |place|
      ensures u[place[k]] == if b0[place[k]] == 0 then 0 else ValueAfter(al, b0[place[k]], evs, k)
    {
      ChangedAt(place, al, b0, evs, k);
      if place[k] in newnz {
        var i :| 0 <= i < |evs| && evs[i].New? && evs[i].k < |place| && place[evs[i].k] == place[k];
        assert all[i] == evs[i] && evs[i].k == k;
      } else if b0[place[k]] == 0 {
        forall i | 0 <= i < |evs| ensures evs[i].k != k {
          assert all[i] == evs[i];
        }
        NoChangeAt(al, b0[place[k]], evs, k);
      }
    }
    forall p | 0 <= p < 64 && p !in place ensures u[p] == b0[p] {
      ChangedElsewhere(place, al, b0, evs, p);
    }
  }

  // ---- A whole block -----------------------------------------------------------------------------------------------

  lemma TrackItem(t: HuffTbl, whole: Option<Parsed<RefineRead>>, evs: seq<Change>, place: seq<nat>, al: nat,
      b0: seq<int>, b: seq<int>, k: nat,
                  rest: seq<bool>, dry: bool, item: RefineItem, rest': seq<bool>, dry': bool)
    requires WellFormed(t) && |b0| == 64 && GoodPlaces(place) && k < |place|
    requires OnTrack(whole, evs, ReadPlaces(t, rest, KnownIn(place, b0), k), place, al, b0, b, k, dry)
    requires !dry ==> match ReadRefineItem(t, rest)
                      case None => dry'
                      case Some(p) => !dry' && item == p.value && rest' == p.rest
    requires item.EndRun? ==> item.e > 0
    ensures var nz := KnownIn(place, b0);
            if item.EndRun? then OnTrack(whole, evs, WalkOnly(PassAll(rest', nz, k), item.e - 1), place, al, b0, b, k,
                dry')
            else OnTrack(whole, evs, AfterPass(t, nz, item, Pass(rest', nz, k, if item.NewOne? then item.r else 15)),
                place, al, b0, b, k, dry')
  {
    hide ReadRefineItem, Pass, PassAll, AfterPass, ReadPlaces, Applied, WellFormed;
    PlacesItem(t, rest, KnownIn(place, b0), k);
  }

  lemma TrackPlaced(t: HuffTbl, whole: Option<Parsed<RefineRead>>, evs: seq<Change>, place: seq<nat>, al: nat,
      b0: seq<int>, b: seq<int>, k: nat,
                    rest: seq<bool>, dry: bool, item: RefineItem)
    requires WellFormed(t) && |b0| == |b| == 64 && GoodPlaces(place)
    requires OnTrack(whole, evs, AfterPass(t, KnownIn(place, b0), item, Some(Walk([], k, rest))), place, al, b0, b, k,
        dry)
    ensures item.NewOne? && whole.Some? ==> k < |place|
    ensures item.NewOne? && k < |place| ==>
              OnTrack(whole, evs + [New(k, item.neg)], ReadPlaces(t, rest, KnownIn(place, b0), k + 1), place, al, b0,
                      OneChange(place, al, b, New(k, item.neg)), k + 1, dry)
    ensures !item.NewOne? ==>
        OnTrack(whole, evs, ReadPlaces(t, rest, KnownIn(place, b0), k + 1), place, al, b0, b, k + 1, dry)
  {
    hide ReadPlaces, Applied, WellFormed, OneChange;
    if whole.Some? {
      var more := ReadPlaces(t, rest, KnownIn(place, b0), k + 1);
      if item.NewOne? {
        AppliedMore(place, al, b0, b, evs, k, New(k, item.neg), k + 1);
        assert [] + [New(k, item.neg)] == [New(k, item.neg)];
        EvsTwice(evs, [New(k, item.neg)], more);
      } else {
        AppliedFurther(place, al, b0, b, evs, k, k + 1);
        EvsNone(more);
      }
    }
  }

  predicate Kept(whole: Option<Parsed<RefineRead>>, newnz: seq<nat>, evs: seq<Change>, place: seq<nat>) {
    whole.Some? ==> Remembered(newnz, evs, place)
  }

  lemma OffTrack(whole: Option<Parsed<RefineRead>>, evs: seq<Change>, left: Option<Parsed<RefineRead>>, place: seq<nat>,
      al: nat,
                 b0: seq<int>, b: seq<int>, k: nat, dry: bool)
    requires whole.None?
    ensures OnTrack(whole, evs, left, place, al, b0, b, k, dry)
  {
  }

  // Outputs what an item stands for at the place that has been reached. A new coefficient
  // is remembered, in case reading has to stop.
  method PlaceItem(br: BitReader, block: array<int>, order: seq<nat>, ss: nat, se: nat, al: nat, k: nat,
      item: RefineItem, newnzPos: array<nat>, num0: nat,
                   ghost t: HuffTbl, ghost b0: seq<int>, ghost whole: Option<Parsed<RefineRead>>,
                       ghost evs0: seq<Change>)
    returns (num: nat, ghost evs: seq<Change>)
    requires WellFormed(t) && block.Length == 64 && GoodRefineBand(order, ss, se, al) && JcoefBlock(block[..])
        && |b0| == 64
    requires newnzPos.Length == 64 && num0 < 64 && ss <= k <= se + 1 && forall i :: 0 <= i < num0 ==> newnzPos[i] < 64
    requires Kept(whole, newnzPos[..num0], evs0, PlacesOf(order, ss, se))
    requires var place := PlacesOf(order, ss, se);
             OnTrack(whole, evs0, AfterPass(t, KnownIn(place, b0), item, Some(Walk([], k - ss, br.Rest()))), place, al,
                 b0, block[..], k - ss, br.insufficient)
    modifies block, newnzPos
    ensures JcoefBlock(block[..]) && num0 <= num <= num0 + 1
    ensures forall i :: 0 <= i < num ==> newnzPos[i] < 64
    ensures Kept(whole, newnzPos[..num], evs, PlacesOf(order, ss, se))
    ensures var place := PlacesOf(order, ss, se);
            OnTrack(whole, evs, ReadPlaces(t, br.Rest(), KnownIn(place, b0), k + 1 - ss), place, al, b0, block[..],
                k + 1 - ss, br.insufficient)
  {
    hide Coming, AfterPass, ReadPlaces, Applied, OnTrack, WellFormed, OneChange, Remembered, ToJcoef, Kept;
    ghost var place := PlacesOf(order, ss, se);
    num, evs := num0, evs0;
    TrackPlaced(t, whole, evs, place, al, b0, block[..], k - ss, br.Rest(), br.insufficient, item);
    if item.NewOne? {
      ghost var c, n := block[..], newnzPos[..num];
      var p1: int := Pow2(al);
      SmallPower(al);
      block[order[k]] := if item.neg then -p1 else p1;
      newnzPos[num] := order[k];
      num := num + 1;
      if k <= se {
        assert newnzPos[..num] == n + [place[k - ss]];
        KeptMore(whole, n, evs, place, k - ss, item.neg);
        IsOneChange(place, al, c, k - ss, item.neg, block[..]);
        evs := evs + [New(k - ss, item.neg)];
      } else {
        assert whole.None?;
        KeptAnyway(whole, newnzPos[..num], evs, place);
        OffTrack(whole, evs, ReadPlaces(t, br.Rest(), KnownIn(place, b0), k + 1 - ss), place, al, b0, block[..],
            k + 1 - ss, br.insufficient);
      }
    }
  }

  lemma KeptAnyway(whole: Option<Parsed<RefineRead>>, newnz: seq<nat>, evs: seq<Change>, place: seq<nat>)
    requires whole.None?
    ensures Kept(whole, newnz, evs, place)
  {
  }

  // "if (EOBRUN == 0) for (; k <= Se; k++)": symbol after symbol up to the end of the band
  // or the beginning of a run.
  method RefinePlaces(br: BitReader, d: DTbl, block: array<int>, order: seq<nat>, ss: nat, se: nat, al: nat,
      newnzPos: array<nat>,
                      ghost b0: seq<int>, ghost whole: Option<Parsed<RefineRead>>)
    returns (ok: bool, k: nat, run: nat, num: nat, ghost evs: seq<Change>)
    requires br.Valid() && DecodesWith(d.pub, d) && WellFormed(d.pub) && block.Length == 64
        && GoodRefineBand(order, ss, se, al)
    requires JcoefBlock(block[..]) && |b0| == 64 && newnzPos.Length == 64
    requires var place := PlacesOf(order, ss, se);
             OnTrack(whole, [], ReadPlaces(d.pub, br.Rest(), KnownIn(place, b0), 0), place, al, b0, block[..], 0,
                 br.insufficient)
    modifies br, block, newnzPos
    ensures br.Valid() && br.Steady(old(br.Ahead()), ok) && (old(br.insufficient) ==> br.insufficient)
        && JcoefBlock(block[..])
    ensures num <= 64 && forall i :: 0 <= i < num ==> newnzPos[i] < 64
    ensures Kept(whole, newnzPos[..num], evs, PlacesOf(order, ss, se))
    ensures ok && run > 0 ==> ss <= k <= se
    ensures var place := PlacesOf(order, ss, se);
            if !ok then Halted(whole, evs, place, al, b0, block[..])
            else if run > 0 then
              ss <= k && OnTrack(whole, evs, WalkOnly(PassAll(br.Rest(), KnownIn(place, b0), k - ss), run - 1), place,
                  al, b0, block[..], k - ss, br.insufficient)
            else OnTrack(whole, evs, Some(Parsed(RefineRead([], 0), br.Rest())), place, al, b0, block[..], |place|,
                br.insufficient)
  {
    hide Coming, br.Ahead, AfterPass, Pass, PassAll, ReadPlaces, Applied, OnTrack, Halted, ReadRefineItem, WellFormed,
        DecodesWith, Kept, JcoefBlock;
    ghost var place := PlacesOf(order, ss, se);
    ghost var nz := KnownIn(place, b0);
    k, run, num, evs := ss, 0, 0, [];
    NothingKept(whole, newnzPos[..0], place);
    while k <= se
      invariant br.Valid() && br.Steady(old(br.Ahead()), true) && (old(br.insufficient) ==> br.insufficient)
          && JcoefBlock(block[..])
      invariant ss <= k <= se + 2 && num <= k - ss && num <= 64
      invariant forall i :: 0 <= i < num ==> newnzPos[i] < 64
      invariant Kept(whole, newnzPos[..num], evs, place)
      invariant OnTrack(whole, evs, ReadPlaces(d.pub, br.Rest(), nz, k - ss), place, al, b0, block[..], k - ss,
          br.insufficient)
      decreases se + 2 - k
    {
      ghost var rest, b, dry, evs0 := br.Rest(), block[..], br.insufficient, evs;
      TrackHalts(whole, evs, ReadPlaces(d.pub, rest, nz, k - ss), place, al, b0, b, k - ss, dry);
      var item;
      ok, item := ReadItemOf(br, d);
      if !ok {
        return;
      }
      TrackItem(d.pub, whole, evs, place, al, b0, b, k - ss, rest, dry, item, br.Rest(), br.insufficient);
      if item.EndRun? {
        run := item.e;
        return;
      }
      var r := if item.NewOne? then item.r else 15;
      ok, k, evs := PassZeros(br, block, order, ss, se, al, k, r, d.pub, item, b0, whole, evs);
      KeptSame(whole, newnzPos[..num], evs0, evs, place);
      if !ok {
        return;
      }
      num, evs := PlaceItem(br, block, order, ss, se, al, k, item, newnzPos, num, d.pub, b0, whole, evs);
      k := k + 1;
    }
    ok := true;
    PlacesEnd(d.pub, whole, evs, place, al, b0, block[..], k - ss, br.Rest(), br.insufficient);
  }

  lemma SmallPower(al: nat)
    requires al <= MAX_AL
    ensures IsJcoef(Pow2(al)) && IsJcoef(-(Pow2(al) as int))
  {
    Pow2Mono(al, 13);
    Pow2Table();
  }

  lemma IsOneChange(place: seq<nat>, al: nat, b: seq<int>, k: nat, neg: bool, c: seq<int>)
    requires |b| == 64 && GoodPlaces(place) && k < |place|
    requires c == b[place[k] := ValueOf(al, neg)]
    ensures c == OneChange(place, al, b, New(k, neg))
  {
  }

  lemma NothingKept(whole: Option<Parsed<RefineRead>>, none: seq<nat>, place: seq<nat>)
    requires none == []
    ensures Kept(whole, none, [], place)
  {
  }

  lemma KeptSame(whole: Option<Parsed<RefineRead>>, newnz: seq<nat>, evs: seq<Change>, evs': seq<Change>,
      place: seq<nat>)
    requires Kept(whole, newnz, evs, place) && evs <= evs' && forall i :: |evs| <= i < |evs'| ==> evs'[i].Correct?
    ensures Kept(whole, newnz, evs', place)
  {
    if whole.Some? { RememberedSame(newnz, evs, evs', place); }
  }

  lemma KeptMore(whole: Option<Parsed<RefineRead>>, newnz: seq<nat>, evs: seq<Change>, place: seq<nat>, k: nat,
      neg: bool)
    requires Kept(whole, newnz, evs, place)
    ensures k < |place| ==> Kept(whole, newnz + [place[k]], evs + [New(k, neg)], place)
  {
    if whole.Some? && k < |place| { RememberedMore(newnz, evs, place, k, neg); }
  }

  lemma PlacesEnd(t: HuffTbl, whole: Option<Parsed<RefineRead>>, evs: seq<Change>, place: seq<nat>, al: nat,
      b0: seq<int>, b: seq<int>, k: nat,
                  rest: seq<bool>, dry: bool)
    requires WellFormed(t) && |b0| == 64 && GoodPlaces(place) && k >= |place|
    requires OnTrack(whole, evs, ReadPlaces(t, rest, KnownIn(place, b0), k), place, al, b0, b, k, dry)
    ensures OnTrack(whole, evs, Some(Parsed(RefineRead([], 0), rest)), place, al, b0, b, |place|, dry)
  {
  }

  // "undoit": the new coefficients are taken back, in the opposite order.
  method UndoIt(block: array<int>, newnzPos: array<nat>, num: nat)
    requires block.Length == 64 && num <= newnzPos.Length && forall i :: 0 <= i < num ==> newnzPos[i] < 64
    modifies block
    ensures forall p :: 0 <= p < 64 ==> block[p] == if p in newnzPos[..num] then 0 else old(block[p])
  {
    var n := num;
    while n > 0
      invariant 0 <= n <= num
      invariant forall p :: 0 <= p < 64 ==> block[p] == if p in newnzPos[n..num] then 0 else old(block[p])
    {
      n := n - 1;
      block[newnzPos[n]] := 0;
      assert newnzPos[n..num] == [newnzPos[n]] + newnzPos[n + 1..num];
    }
    assert newnzPos[0..num] == newnzPos[..num];
  }

  // What the bits s mean for block b during a run of run blocks, if they make sense.
  function Meaning(t: HuffTbl, s: seq<bool>, place: seq<nat>, b: seq<int>, run: nat): Option<Parsed<RefineRead>>
    requires WellFormed(t) && |b| == 64 && GoodPlaces(place)
  {
    ReadRefine(t, s, KnownIn(place, b), run)
  }

  lemma MeaningProper(t: HuffTbl, s: seq<bool>, place: seq<nat>, b: seq<int>, run: nat)
    requires WellFormed(t) && |b| == 64 && GoodPlaces(place)
    ensures Meaning(t, s, place, b, run).Some? ==>
              var evs := Meaning(t, s, place, b, run).value.value.evs;
              InBand(evs, |place|) && Ascending(evs) && Fits(place, b, evs)
  {
    hide ReadPlaces, PassAll, WellFormed;
    var nz := KnownIn(place, b);
    if run > 0 { PassAllProper(s, nz, 0); } else { PlacesProper(t, s, nz, 0); }
  }

  // Two blocks that the same bits lead to the same end.
  predicate SameOutcome(t: HuffTbl, s: seq<bool>, place: seq<nat>, al: nat, a: seq<int>, b: seq<int>, run: nat) {
    && WellFormed(t) && |a| == |b| == 64 && GoodPlaces(place)
    && KnownIn(place, a) == KnownIn(place, b)
    && (Meaning(t, s, place, b, run).Some? ==>
          var evs := Meaning(t, s, place, b, run).value.value.evs;
          InBand(evs, |place|) && Changed(place, al, a, evs) == Changed(place, al, b, evs))
  }

  lemma HaltedSame(t: HuffTbl, s: seq<bool>, place: seq<nat>, al: nat, b0: seq<int>, b: seq<int>, evs: seq<Change>,
      newnz: seq<nat>, u: seq<int>, run: nat)
    requires WellFormed(t) && JcoefBlock(b0) && GoodPlaces(place) && al <= MAX_AL
    requires Meaning(t, s, place, b0, run).Some? && Halted(Meaning(t, s, place, b0, run), evs, place, al, b0, b)
    requires Kept(Meaning(t, s, place, b0, run), newnz, evs, place)
    requires |u| == 64 && forall p :: 0 <= p < 64 ==> u[p] == if p in newnz then 0 else b[p]
    ensures JcoefBlock(u) && SameOutcome(t, s, place, al, u, b0, run)
  {
    hide Changed, ReadRefine, Undone, WellFormed, Applied, Fits, Remembered;
    var all := Meaning(t, s, place, b0, run).value.value.evs;
    MeaningProper(t, s, place, b0, run);
    AppliedInBand(place, al, b0, b, evs, |place|);
    UndoneBy(place, al, b0, b, evs, all, newnz, u);
    Restartable(place, al, b0, evs, all, u);
    assert KnownIn(place, u) == KnownIn(place, b0);
  }

  lemma AppliedInBand(place: seq<nat>, al: nat, b0: seq<int>, b: seq<int>, evs: seq<Change>, k: nat)
    requires Applied(place, al, b0, b, evs, k)
    ensures InBand(evs, |place|) && |b| == 64
  {
  }

  // One block of a refinement scan. Interrupted or not, the block is left as one from
  // which the same bits lead to the same end.
  method DecodeAcRefine(br: BitReader, d: DTbl, block: array<int>, order: seq<nat>, ss: nat, se: nat, al: nat,
      run0: nat)
    returns (ok: bool, run: nat)
    requires br.Valid() && DecodesWith(d.pub, d) && WellFormed(d.pub) && block.Length == 64
        && GoodRefineBand(order, ss, se, al)
    requires JcoefBlock(block[..]) && !br.insufficient
    modifies br, block
    ensures br.Valid() && br.Steady(old(br.Ahead()), ok)
    ensures var place := PlacesOf(order, ss, se);
            var m := Meaning(d.pub, old(br.Rest()), place, old(block[..]), run0);
            m.Some? ==>
              && JcoefBlock(block[..])
              && (ok ==> !br.insufficient && br.Rest() == m.value.rest && run == m.value.value.run
                         && InBand(m.value.value.evs, |place|)
                         && block[..] == Changed(place, al, old(block[..]), m.value.value.evs))
              && (!ok ==> SameOutcome(d.pub, old(br.Rest()), place, al, block[..], old(block[..]), run0))
  {
    hide Coming, br.Ahead, PassAll, ReadPlaces, Applied, WellFormed, DecodesWith, Kept, JcoefBlock, Changed, Halted,
        SameOutcome, OnTrack;
    ghost var place, s, b0 := PlacesOf(order, ss, se), br.Rest(), block[..];
    ghost var whole := Meaning(d.pub, s, place, b0, run0);
    MeaningProper(d.pub, s, place, b0, run0);
    var newnzPos := new nat[64];
    var k, num := ss, 0;
    ghost var evs := [];
    run, ok := run0, true;
    OnTrackStart(d.pub, s, place, al, b0, run0);
    NothingKept(whole, newnzPos[..0], place);
    if run == 0 {
      ok, k, run, num, evs := RefinePlaces(br, d, block, order, ss, se, al, newnzPos, b0, whole);
    }
    if ok && run > 0 {
      ghost var before := evs;
      ok, evs := PassRest(br, block, order, ss, se, al, k, b0, whole, evs, run - 1);
      KeptSame(whole, newnzPos[..num], before, evs, place);
      run := run - 1;
    }
    if ok {
      Arrived(whole, evs, run, br.Rest(), place, al, b0, block[..], br.insufficient);
      return;
    }
    ghost var b := block[..];
    UndoIt(block, newnzPos, num);
    if whole.Some? { HaltedSame(d.pub, s, place, al, b0, b, evs, newnzPos[..num], block[..], run0); }
  }

  lemma OnTrackStart(t: HuffTbl, s: seq<bool>, place: seq<nat>, al: nat, b: seq<int>, run: nat)
    requires WellFormed(t) && |b| == 64 && GoodPlaces(place)
    ensures var whole := Meaning(t, s, place, b, run);
            if run == 0 then OnTrack(whole, [], ReadPlaces(t, s, KnownIn(place, b), 0), place, al, b, b, 0, false)
            else OnTrack(whole, [], WalkOnly(PassAll(s, KnownIn(place, b), 0), run - 1), place, al, b, b, 0, false)
  {
    hide ReadPlaces, PassAll, WellFormed;
    EvsNone(Meaning(t, s, place, b, run));
  }

  lemma Arrived(whole: Option<Parsed<RefineRead>>, evs: seq<Change>, run: nat, rest: seq<bool>, place: seq<nat>,
      al: nat, b0: seq<int>, b: seq<int>, dry: bool)
    requires OnTrack(whole, evs, Some(Parsed(RefineRead([], run), rest)), place, al, b0, b, |place|, dry)
    ensures whole.Some? ==>
              && !dry && rest == whole.value.rest && run == whole.value.value.run && |b0| == 64 && GoodPlaces(place)
              && InBand(whole.value.value.evs, |place|) && b == Changed(place, al, b0, whole.value.value.evs)
  {
    hide Changed;
    assert evs + [] == evs;
  }
}
