// What the events of a progressive AC scan do to a coefficient block, and why an
// interrupted refinement can be taken up again.
module ProgBlocks {
  import opened Coefs
  import opened Division
  import opened Bytes
  import opened ProgRefine

  // ---- Correction bits ---------------------------------------------------------------------------------------------

  const MAX_AL := 13

  // "(c & p1) == 0" for p1 = 2^al, with negative numbers in two's complement.
  predicate BitClear(c: int, al: nat) {
    c / Pow2(al) % 2 == 0
  }

  // A correction bit of 1 increases the magnitude, unless that has been done already.
  function Fix(c: int, al: nat, bit: bool): int {
    if bit && BitClear(c, al) then ToJcoef(if c >= 0 then c + Pow2(al) else c - Pow2(al)) else c
  }

  // The whole of a 16-bit word is an even multiple of 2^al.
  lemma WordIsEven(al: nat)
    requires al <= MAX_AL
    ensures 0x1_0000 == Pow2(al) * (2 * Pow2(15 - al))
  {
    Pow2Add(al, 15 - al + 1);
    Pow2Table();
    assert Pow2(16 - al) == 2 * Pow2(15 - al);
  }

  lemma JcoefCases(x: int)
    requires -0x1_0000 <= x <= 0x1_0000
    ensures ToJcoef(x) == x || ToJcoef(x) == x + 0x1_0000 || ToJcoef(x) == x - 0x1_0000
  {
  }

  lemma ToJcoefKeepsBit(x: int, al: nat)
    requires al <= MAX_AL && -0x1_0000 <= x <= 0x1_0000
    ensures BitClear(ToJcoef(x), al) == BitClear(x, al)
  {
    hide ToJcoef, Pow2;
    WordIsEven(al);
    JcoefCases(x);
    var q: int := 2 * Pow2(15 - al);
    AddMultiple(x, Pow2(al), q);
    AddMultiple(x, Pow2(al), -q);
    MinusProduct(Pow2(al), q);
    Evenness(x / Pow2(al), Pow2(15 - al));
  }

  lemma MinusProduct(p: int, q: int)
    ensures p * -q == -(p * q)
  {
  }

  lemma Evenness(x: int, h: int)
    ensures (x + 2 * h) % 2 == x % 2 == (x - 2 * h) % 2
  {
  }

  // A correction bit applied twice is applied once.
  lemma FixTwice(c: int, al: nat, bit: bool)
    requires al <= MAX_AL && IsJcoef(c)
    ensures Fix(Fix(c, al, bit), al, bit) == Fix(c, al, bit)
  {
    hide ToJcoef;
    if bit && BitClear(c, al) {
      var x := if c >= 0 then c + Pow2(al) else c - Pow2(al);
      Pow2Mono(al, 13);
      Pow2Table();
      ToJcoefKeepsBit(x, al);
      AddMultiple(c, Pow2(al), 1);
      AddMultiple(c, Pow2(al), -1);
    }
  }

  // What is known stays known.
  lemma FixKeepsNonzero(c: int, al: nat, bit: bool)
    requires al <= MAX_AL && IsJcoef(c) && c != 0
    ensures Fix(c, al, bit) != 0 && IsJcoef(Fix(c, al, bit))
  {
    Pow2Mono(al, 13);
    Pow2Table();
  }

  // ---- Events on a block -------------------------------------------------------------------------------------------

  // The places of the band in a block, all different.
  predicate GoodPlaces(place: seq<nat>) {
    (forall i :: 0 <= i < |place| ==> place[i] < 64) && (forall i, j :: 0 <= i < j < |place| ==> place[i] != place[j])
  }

  predicate InBand(evs: seq<Change>, n: nat) {
    forall i :: 0 <= i < |evs| ==> evs[i].k < n
  }

  predicate Ascending(evs: seq<Change>) {
    forall i, j :: 0 <= i < j < |evs| ==> evs[i].k < evs[j].k
  }

  function OneChange(place: seq<nat>, al: nat, b: seq<int>, e: Change): (c: seq<int>)
    requires |b| == 64 && GoodPlaces(place) && e.k < |place|
    ensures |c| == 64
  {
    match e
    case New(k, neg) => var p: int := Pow2(al); b[place[k] := if neg then -p else p]
    case Correct(k, bit) => b[place[k] := Fix(b[place[k]], al, bit)]
  }

  function Changed(place: seq<nat>, al: nat, b: seq<int>, evs: seq<Change>): (c: seq<int>)
    requires |b| == 64 && GoodPlaces(place) && InBand(evs, |place|)
    ensures |c| == 64
  {
    if evs == [] then b else OneChange(place, al, Changed(place, al, b, evs[..|evs| - 1]), evs[|evs| - 1])
  }

  lemma ChangedSnoc(place: seq<nat>, al: nat, b: seq<int>, evs: seq<Change>, e: Change)
    requires |b| == 64 && GoodPlaces(place) && InBand(evs, |place|) && e.k < |place|
    ensures InBand(evs + [e], |place|)
        && Changed(place, al, b, evs + [e]) == OneChange(place, al, Changed(place, al, b, evs), e)
  {
    assert (evs + [e])[..|evs|] == evs;
  }

  // What the events do to a single value.
  function ValueAfter(al: nat, v: int, evs: seq<Change>, k: nat): int {
    if evs == [] then v
    else
      var e, x := evs[|evs| - 1], ValueAfter(al, v, evs[..|evs| - 1], k);
      if e.k != k then x
      else if e.New? then var p: int := Pow2(al); if e.neg then -p else p
      else Fix(x, al, e.bit)
  }

  lemma {:induction false} ChangedAt(place: seq<nat>, al: nat, b: seq<int>, evs: seq<Change>, k: nat)
    requires |b| == 64 && GoodPlaces(place) && InBand(evs, |place|) && k < |place|
    ensures Changed(place, al, b, evs)[place[k]] == ValueAfter(al, b[place[k]], evs, k)
    decreases |evs|
  {
    hide Fix;
    if evs != [] { ChangedAt(place, al, b, evs[..|evs| - 1], k); }
  }

  lemma {:induction false} ChangedElsewhere(place: seq<nat>, al: nat, b: seq<int>, evs: seq<Change>, p: nat)
    requires |b| == 64 && GoodPlaces(place) && InBand(evs, |place|) && p < 64 && p !in place
    ensures Changed(place, al, b, evs)[p] == b[p]
    decreases |evs|
  {
    hide Fix;
    if evs != [] { ChangedElsewhere(place, al, b, evs[..|evs| - 1], p); }
  }

  lemma {:induction false} NoChangeAt(al: nat, v: int, evs: seq<Change>, k: nat)
    requires forall i :: 0 <= i < |evs| ==> evs[i].k != k
    ensures ValueAfter(al, v, evs, k) == v
    decreases |evs|
  {
    if evs != [] { NoChangeAt(al, v, evs[..|evs| - 1], k); }
  }

  // With at most one event for each place, only that one counts.
  lemma {:induction false} OnlyChange(al: nat, v: int, evs: seq<Change>, i: nat)
    requires Ascending(evs) && i < |evs|
    ensures ValueAfter(al, v, evs, evs[i].k)
            == if evs[i].New? then ValueOf(al, evs[i].neg) else Fix(v, al, evs[i].bit)
    decreases |evs|
  {
    hide Fix;
    var n := |evs| - 1;
    if i == n {
      NoChangeAt(al, v, evs[..n], evs[n].k);
    } else {
      OnlyChange(al, v, evs[..n], i);
    }
  }

  function ValueOf(al: nat, neg: bool): int { var p: int := Pow2(al); if neg then -p else p }

  // ---- Taking up an interrupted refinement -------------------------------------------------------------------------

  // The events fit the block: new coefficients come where there was none, corrections
  // where there was one.
  predicate Fits(place: seq<nat>, b: seq<int>, evs: seq<Change>)
    requires |b| == 64 && GoodPlaces(place) && InBand(evs, |place|)
  {
    forall i :: 0 <= i < |evs| ==> (evs[i].New? <==> b[place[evs[i].k]] == 0)
  }

  // The block with its new coefficients taken back; corrections stay.
  predicate Undone(place: seq<nat>, al: nat, b: seq<int>, evs: seq<Change>, u: seq<int>)
    requires |b| == 64 && GoodPlaces(place) && InBand(evs, |place|)
  {
    && |u| == 64
    && (forall k :: 0 <= k < |place| ==>
          u[place[k]] == if b[place[k]] == 0 then 0 else ValueAfter(al, b[place[k]], evs, k))
    && (forall p :: 0 <= p < 64 && p !in place ==> u[p] == b[p])
  }

  predicate JcoefBlock(b: seq<int>) {
    |b| == 64 && forall i :: 0 <= i < 64 ==> IsJcoef(b[i])
  }

  lemma {:induction false} AfterPart(al: nat, v: int, evs: seq<Change>, all: seq<Change>, k: nat)
    requires al <= MAX_AL && IsJcoef(v) && v != 0 && evs <= all && Ascending(all)
    requires forall i :: 0 <= i < |all| && all[i].k == k ==> all[i].Correct?
    ensures ValueAfter(al, v, evs, k) != 0 && IsJcoef(ValueAfter(al, v, evs, k))
    ensures ValueAfter(al, ValueAfter(al, v, evs, k), all, k) == ValueAfter(al, v, all, k)
  {
    hide Fix, ToJcoef;
    if i :| 0 <= i < |all| && all[i].k == k {
      OnlyChange(al, v, all, i);
      if i < |evs| {
        OnlyChange(al, v, evs, i);
        FixTwice(v, al, all[i].bit);
        FixKeepsNonzero(v, al, all[i].bit);
        OnlyChange(al, Fix(v, al, all[i].bit), all, i);
      } else {
        forall j | 0 <= j < |evs| ensures evs[j].k != k { assert evs[j] == all[j]; }
        NoChangeAt(al, v, evs, k);
      }
    } else {
      forall j | 0 <= j < |evs| ensures evs[j].k != k { assert evs[j] == all[j]; }
      NoChangeAt(al, v, evs, k);
    }
  }

  // Starting over from there with the same events gives the same block, and to the
  // decoder the same coefficients look known.
  lemma Restartable(place: seq<nat>, al: nat, b: seq<int>, evs: seq<Change>, all: seq<Change>, u: seq<int>)
    requires JcoefBlock(b) && GoodPlaces(place) && InBand(all, |place|) && evs <= all && Ascending(all)
        && Fits(place, b, all) && al <= MAX_AL
    requires InBand(evs, |place|) && Undone(place, al, b, evs, u)
    ensures JcoefBlock(u) && Changed(place, al, u, all) == Changed(place, al, b, all)
    ensures forall k :: 0 <= k < |place| ==> (u[place[k]] != 0 <==> b[place[k]] != 0)
    ensures Fits(place, u, all)
  {
    hide Fix, ToJcoef, Changed, ValueAfter;
    forall k | 0 <= k < |place|
      ensures IsJcoef(u[place[k]]) && (u[place[k]] != 0 <==> b[place[k]] != 0)
      ensures Changed(place, al, u, all)[place[k]] == Changed(place, al, b, all)[place[k]]
    {
      ChangedAt(place, al, u, all, k);
      ChangedAt(place, al, b, all, k);
      if b[place[k]] != 0 { AfterPart(al, b[place[k]], evs, all, k); }
    }
    forall p | 0 <= p < 64
      ensures IsJcoef(u[p]) && Changed(place, al, u, all)[p] == Changed(place, al, b, all)[p]
    {
      if p in place {
        var k :| 0 <= k < |place| && place[k] == p;
      } else {
        ChangedElsewhere(place, al, u, all, p);
        ChangedElsewhere(place, al, b, all, p);
      }
    }
  }
}
