// What a decoder knows of a coefficient while its bits arrive scan by scan, and why
// each kind of progressive scan adds exactly the bits it is for.
module ProgApprox {
  import opened Coefs
  import opened Division
  import opened Bytes
  import opened BitString
  import opened ZigzagOrder
  import opened ProgTokens
  import opened ProgRead
  import opened ProgRefine
  import opened ProgEncoder
  import opened ProgBlocks
  import opened ProgAcFirstDecoder
  import opened ProgAcRefineDecoder
  import opened ProgDc
  import opened ProgDcDecoder

  // A coefficient whose bits from position p on are known; for p < 0 none is.
  function Approx(v: int, k: nat, p: int): int {
    if p < 0 then 0 else (if k == 0 then Floored(v, p) else Truncated(v, p)) * Pow2(p)
  }

  lemma AllBitsKnown(v: int, k: nat)
    ensures Approx(v, k, 0) == v
  {
    assert Pow2(0) == 1;
  }

  // The bits below position p are cleared: those of the number for a DC coefficient, those of
  // its magnitude for an AC coefficient.
  lemma ApproxIs(v: int, k: nat, p: nat)
    ensures Approx(v, k, p) == if k == 0 || v >= 0 then v - v % Pow2(p) else v + (-v) % Pow2(p)
  {
    hide Shr;
    ShrIs(Abs(v), p);
    Parted(v, Pow2(p));
    Parted(-v, Pow2(p));
  }

  lemma Parted(v: int, w: nat)
    requires w > 0
    ensures v / w * w == v - v % w && -(v / w) * w == -(v / w * w)
  {
  }

  // The positions known of each coefficient of a block, in coding order.
  predicate GoodPositions(pos: seq<int>) {
    |pos| == 64 && forall k :: 0 <= k < 64 ==> -1 <= pos[k] <= MAX_AL
  }

  predicate BlockApprox(order: seq<nat>, z: seq<int>, b: seq<int>, pos: seq<int>)
    requires ScanOrder(order, 63)
  {
    && JcoefBlock(z) && |b| == 64 && GoodPositions(pos)
    && forall k :: 0 <= k < 64 ==> b[order[k]] == Approx(z[order[k]], k, pos[k])
  }

  // After a scan of the band ss..se down to bit al.
  function Mark(pos: seq<int>, ss: nat, se: nat, al: nat): (m: seq<int>)
    requires |pos| == 64
    ensures |m| == 64 && forall k :: 0 <= k < 64 ==> m[k] == if ss <= k <= se then al else pos[k]
  {
    seq(64, k requires 0 <= k < 64 => if ss <= k <= se then al else pos[k])
  }

  // ---- Numbers -----------------------------------------------------------------------------------------------------

  lemma {:induction false} ShrHalf(v: nat, al: nat)
    ensures Shr(v, al) == 2 * Shr(v, al + 1) + Shr(v, al) % 2
    ensures Shr(v, al) * Pow2(al) <= v
  {
    ShrParts(v, al);
    if al > 0 { ShrHalf(v / 2, al - 1); } else { assert Shr(v, 1) == Shr(v / 2, 0); }
  }

  lemma Pow2Positive(n: nat)
    ensures Pow2(n) > 0 && Pow2(n + 1) == 2 * Pow2(n)
  {
  }

  lemma HalfDown(v: int, p: nat)
    requires p > 0
    ensures v / p == 2 * (v / (2 * p)) + v / p % 2
    ensures v / p * p <= v
  {
    var q, r := v / (2 * p), v % (2 * p);
    assert v == 2 * p * q + r;
    if r < p {
      DivIs(v, p, 2 * q, r);
    } else {
      DivIs(v, p, 2 * q + 1, r - p);
    }
  }

  // Nothing gets out of the range of a coefficient.
  lemma ApproxIsJcoef(v: int, k: nat, p: int)
    requires IsJcoef(v) && p <= MAX_AL
    ensures IsJcoef(Approx(v, k, p))
  {
    hide Floored, Truncated, Pow2;
    if p >= 0 { if k == 0 { FlooredInRange(v, p); } else { TruncatedInRange(v, p); } }
  }

  lemma FlooredInRange(v: int, p: nat)
    requires IsJcoef(v) && p <= MAX_AL
    ensures IsJcoef(Floored(v, p) * Pow2(p))
  {
    Pow2Positive(p);
    HalfDown(v, Pow2(p));
    FloorAboveMin(v, p);
  }

  lemma TruncatedInRange(v: int, p: nat)
    requires IsJcoef(v)
    ensures IsJcoef(Truncated(v, p) * Pow2(p))
  {
    hide Truncated, Shr;
    ShrHalf(Abs(v), p);
    Signed(v, p);
    NotNegative(Shr(Abs(v), p), Pow2(p));
  }

  lemma NotNegative(x: nat, y: nat)
    ensures x * y >= 0
  {
  }

  lemma FloorAboveMin(v: int, p: nat)
    requires -0x8000 <= v && p <= MAX_AL
    ensures Floored(v, p) * Pow2(p) >= -0x8000
  {
    Pow2Add(p, 15 - p);
    Pow2Table();
    Pow2Positive(p);
    var m: int := Pow2(15 - p);
    AddMultiple(v + 0x8000, Pow2(p), -m);
    MinusProduct(Pow2(p), m);
    assert v / Pow2(p) >= -m;
    TimesAtLeast(v / Pow2(p), -m, Pow2(p));
  }

  lemma TimesAtLeast(x: int, y: int, p: nat)
    requires x >= y
    ensures x * p >= y * p && y * p == p * y
  {
  }

  lemma Signed(v: int, p: nat)
    ensures Truncated(v, p) * Pow2(p) == if v < 0 then -(Shr(Abs(v), p) * Pow2(p)) else Shr(Abs(v), p) * Pow2(p)
  {
  }

  // ---- First scan of a band ----------------------------------------------------------------------------------------

  lemma {:induction false} FoundAll(t: seq<int>, k: nat, i: nat)
    requires k <= i < |t|
    ensures Found(i, t[i]) in FoundIn(t, k) <==> t[i] != 0
    decreases |t| - k
  {
    if i == k {
      if t[k] == 0 { assert forall f <- FoundIn(t, k) :: f.k > k; }
    } else {
      FoundAll(t, k + 1, i);
    }
  }

  lemma {:induction false} StoredAt(place: seq<nat>, al: nat, b: seq<int>, fs: seq<Found>, t: seq<int>, k: nat)
    requires |b| == 64 && (forall i :: 0 <= i < |place| ==> place[i] < 64) && |t| <= |place| && GoodPlaces(place[..|t|])
    requires (forall f <- fs :: f.k < |t| && f.v == t[f.k]) && k < |t|
    ensures Reach(fs, |place|)
    ensures Placed(place, al, b, fs)[place[k]] == if Found(k, t[k]) in fs then Scaled(t[k], al) else b[place[k]]
    decreases |fs|
  {
    if fs != [] {
      var n := |fs| - 1;
      StoredAt(place, al, b, fs[..n], t, k);
      assert fs == fs[..n] + [fs[n]];
      assert place[..|t|][k] == place[k] && place[..|t|][fs[n].k] == place[fs[n].k];
    }
  }

  lemma {:induction false} StoredElsewhere(place: seq<nat>, al: nat, b: seq<int>, fs: seq<Found>, n: nat, p: nat)
    requires |b| == 64 && (forall i :: 0 <= i < |place| ==> place[i] < 64) && n <= |place|
    requires (forall f <- fs :: f.k < n) && p < 64 && p !in place[..n]
    ensures Reach(fs, |place|) && Placed(place, al, b, fs)[p] == b[p]
    decreases |fs|
  {
    if fs != [] {
      var m := |fs| - 1;
      StoredElsewhere(place, al, b, fs[..m], n, p);
      assert place[..n][fs[m].k] == place[fs[m].k];
    }
  }

  lemma ScaledApprox(v: int, k: nat, al: nat)
    requires IsJcoef(v) && al <= MAX_AL
    ensures Scaled(if k == 0 then Floored(v, al) else Truncated(v, al), al) == Approx(v, k, al)
  {
    hide Truncated, Floored;
    ApproxIsJcoef(v, k, al);
  }

  // The places of a band are different, and no other coefficient is at one of them.
  lemma BandPlaces(order: seq<nat>, ss: nat, se: nat)
    requires ScanOrder(order, 63) && 1 <= ss <= se < 64
    ensures order[ss..][..se - ss + 1] == PlacesOf(order, ss, se) && GoodPlaces(PlacesOf(order, ss, se))
    ensures forall k :: 0 <= k < 64 && !(ss <= k <= se) ==> order[k] !in PlacesOf(order, ss, se)
  {
    var place := PlacesOf(order, ss, se);
    forall k | 0 <= k < 64 && !(ss <= k <= se) ensures order[k] !in place {
      forall i | 0 <= i < |place| ensures place[i] != order[k] { assert place[i] == order[ss + i] && ss + i != k; }
    }
  }

  // The first scan of a band sets every coefficient in it to what its upper bits say.
  lemma FirstScanApprox(order: seq<nat>, z: seq<int>, b: seq<int>, pos: seq<int>, ss: nat, se: nat, al: nat)
    requires ScanOrder(order, 63) && BlockApprox(order, z, b, pos) && 1 <= ss <= se < 64 && al <= MAX_AL
    requires forall k :: ss <= k <= se ==> pos[k] < 0
    ensures var fs := FoundIn(TruncatedBand(SubBand(order, ss, se, z), al), 0);
            Reach(fs, |order| - ss) && BlockApprox(order, z, Placed(order[ss..], al, b, fs), Mark(pos, ss, se, al))
  {
    hide Placed, Scaled, Approx, FoundIn, Truncated;
    var t := TruncatedBand(SubBand(order, ss, se, z), al);
    var fs := FoundIn(t, 0);
    var place := order[ss..];
    BandPlaces(order, ss, se);
    StoredAt(place, al, b, fs, t, 0);
    var c, m := Placed(place, al, b, fs), Mark(pos, ss, se, al);
    forall k | 0 <= k < 64 ensures c[order[k]] == Approx(z[order[k]], k, m[k]) {
      if ss <= k <= se {
        StoredAt(place, al, b, fs, t, k - ss);
        FoundAll(t, 0, k - ss);
        ScaledApprox(z[order[k]], k, al);
        if t[k - ss] == 0 { ZeroScaled(al); NothingKnown(z[order[k]], k, pos[k]); }
      } else {
        StoredElsewhere(place, al, b, fs, |t|, order[k]);
      }
    }
  }

  lemma ZeroScaled(al: nat)
    ensures Scaled(0, al) == 0
  {
  }

  lemma NothingKnown(v: int, k: nat, p: int)
    requires p < 0
    ensures Approx(v, k, p) == 0
  {
  }

  // ---- Refinement of a band ----------------------------------------------------------------------------------------

  // What there is to tell about the k-th coefficient of the band.
  predicate EventFor(m: seq<Mag>, evs: seq<Change>, k: nat)
    requires k < |m|
  {
    if m[k].abs == 0 then forall i :: 0 <= i < |evs| ==> evs[i].k != k
    else (if m[k].abs == 1 then New(k, m[k].neg) else Correct(k, m[k].abs % 2 == 1)) in evs
  }

  lemma {:induction false} ChangesFor(m: seq<Mag>, i: nat)
    requires i <= |m|
    ensures var evs := ChangesIn(m, i, |m|);
            Ascending(evs) && (forall x :: 0 <= x < |evs| ==> i <= evs[x].k < |m|)
                && (forall k :: i <= k < |m| ==> EventFor(m, evs, k))
    decreases |m| - i
  {
    if i < |m| {
      ChangesFor(m, i + 1);
      var evs, more := ChangesIn(m, i, |m|), ChangesIn(m, i + 1, |m|);
      if m[i].abs != 0 {
        assert evs == [evs[0]] + more;
        assert forall x :: 1 <= x < |evs| ==> evs[x] == more[x - 1];
        forall k | i < k < |m| ensures EventFor(m, evs, k) { assert EventFor(m, more, k); }
      }
    }
  }

  // A known coefficient takes its correction, a new one its place.
  lemma RefinedValue(v: int, k: nat, al: nat, evs: seq<Change>, m: seq<Mag>, j: nat)
    requires IsJcoef(v) && k > 0 && al < MAX_AL && j < |m| && m[j] == MagOf(v, al) && Ascending(evs)
        && EventFor(m, evs, j)
    ensures ValueAfter(al, Approx(v, k, al + 1), evs, j) == Approx(v, k, al)
    ensures Approx(v, k, al + 1) != 0 <==> m[j].abs > 1
  {
    hide ValueAfter, Fix, ToJcoef;
    var old' := Approx(v, k, al + 1);
    OldValue(v, k, al);
    if m[j].abs == 0 {
      NoChangeAt(al, old', evs, j);
    } else {
      var e := if m[j].abs == 1 then New(j, m[j].neg) else Correct(j, m[j].abs % 2 == 1);
      var i :| 0 <= i < |evs| && evs[i] == e;
      OnlyChange(al, old', evs, i);
      if e.Correct? { Corrected(v, k, al); } else { Appears(v, k, al); }
    }
  }

  lemma OldValue(v: int, k: nat, al: nat)
    requires k > 0
    ensures Approx(v, k, al + 1) != 0 <==> Shr(Abs(v), al) > 1
    ensures Shr(Abs(v), al) == 0 ==> Approx(v, k, al) == 0 == Approx(v, k, al + 1)
  {
    ShrHalf(Abs(v), al);
    Pow2Positive(al + 1);
    Signed(v, al + 1);
    Signed(v, al);
    NonzeroProduct(Shr(Abs(v), al + 1), Pow2(al + 1));
  }

  lemma NonzeroProduct(x: nat, p: nat)
    requires p > 0
    ensures x * p != 0 <==> x != 0
  {
  }

  lemma Appears(v: int, k: nat, al: nat)
    requires k > 0 && Shr(Abs(v), al) == 1
    ensures ValueOf(al, v < 0) == Approx(v, k, al)
  {
    Signed(v, al);
  }

  lemma Corrected(v: int, k: nat, al: nat)
    requires IsJcoef(v) && k > 0 && al < MAX_AL && Shr(Abs(v), al) > 1
    ensures Fix(Approx(v, k, al + 1), al, Shr(Abs(v), al) % 2 == 1) == Approx(v, k, al)
  {
    hide Shr, ToJcoef, Truncated, Fix, Pow2;
    ShrHalf(Abs(v), al);
    Pow2Positive(al);
    Signed(v, al + 1);
    Signed(v, al);
    ApproxIsJcoef(v, k, al);
    FixedUp(Shr(Abs(v), al + 1), al, v < 0, Shr(Abs(v), al) % 2 == 1);
  }

  // One bit more of a known magnitude.
  lemma FixedUp(q: nat, al: nat, neg: bool, bit: bool)
    requires var x := (2 * q + if bit then 1 else 0) * Pow2(al); q > 0 && IsJcoef(if neg then -x else x)
    ensures var c, x := q * (2 * Pow2(al)), (2 * q + if bit then 1 else 0) * Pow2(al);
            Fix(if neg then -c else c, al, bit) == if neg then -x else x
  {
    hide ToJcoef;
    Pow2Positive(al);
    Multiples(q, Pow2(al), if bit then 1 else 0);
    EvenMultiple(q, Pow2(al));
    NonzeroProduct(q, 2 * Pow2(al));
  }

  lemma Multiples(q: nat, p: nat, bit: nat)
    ensures q * (2 * p) == 2 * (q * p) && (2 * q + bit) * p == q * (2 * p) + bit * p
  {
  }

  lemma EvenMultiple(q: nat, p: nat)
    requires p > 0
    ensures q * (2 * p) / p % 2 == 0 && -(q * (2 * p)) / p % 2 == 0
  {
    AddMultiple(0, p, 2 * q);
    AddMultiple(0, p, -2 * (q as int));
    MinusProduct(p, 2 * q);
    assert q * (2 * p) == p * (2 * q);
    assert p * (-2 * (q as int)) == -(q * (2 * p));
  }

  // A refinement scan adds one bit to every coefficient of its band, and finds known
  // just those the encoder takes for known.
  lemma RefineScanApprox(order: seq<nat>, z: seq<int>, b: seq<int>, pos: seq<int>, ss: nat, se: nat, al: nat)
    requires ScanOrder(order, 63) && BlockApprox(order, z, b, pos) && 1 <= ss <= se < 64 && al < MAX_AL
    requires forall k :: ss <= k <= se ==> pos[k] == al + 1
    ensures var m, place := MagBand(SubBand(order, ss, se, z), al), PlacesOf(order, ss, se);
            var evs := ChangesIn(m, 0, |m|);
            && GoodPlaces(place) && KnownIn(place, b) == Known(m) && InBand(evs, |place|)
            && BlockApprox(order, z, Changed(place, al, b, evs), Mark(pos, ss, se, al))
  {
    hide Changed, Approx, ChangesIn, Ascending, Shr;
    var m, place := MagBand(SubBand(order, ss, se, z), al), PlacesOf(order, ss, se);
    var evs := ChangesIn(m, 0, |m|);
    BandPlaces(order, ss, se);
    ChangesFor(m, 0);
    var c, mark := Changed(place, al, b, evs), Mark(pos, ss, se, al);
    forall k | 0 <= k < 64
      ensures c[order[k]] == Approx(z[order[k]], k, mark[k])
      ensures ss <= k <= se ==> KnownIn(place, b)[k - ss] == Known(m)[k - ss]
    {
      if ss <= k <= se {
        assert place[k - ss] == order[k];
        ChangedAt(place, al, b, evs, k - ss);
        assert EventFor(m, evs, k - ss);
        RefinedValue(z[order[k]], k, al, evs, m, k - ss);
      } else {
        ChangedElsewhere(place, al, b, evs, order[k]);
      }
    }
    forall j | 0 <= j < |place| ensures KnownIn(place, b)[j] == Known(m)[j] {
      assert KnownIn(place, b)[ss + j - ss] == Known(m)[ss + j - ss];
    }
  }

  // ---- DC scans ----------------------------------------------------------------------------------------------------

  lemma DcFirstApprox(order: seq<nat>, z: seq<int>, b: seq<int>, pos: seq<int>, al: nat)
    requires ScanOrder(order, 63) && BlockApprox(order, z, b, pos) && al <= MAX_AL
    ensures BlockApprox(order, z, b[0 := Scaled(Floored(z[0], al), al)], Mark(pos, 0, 0, al))
  {
    hide Approx, Scaled, Floored;
    ScaledApprox(z[0], 0, al);
  }

  lemma DcRefineApprox(order: seq<nat>, z: seq<int>, b: seq<int>, pos: seq<int>, al: nat)
    requires ScanOrder(order, 63) && BlockApprox(order, z, b, pos) && al < MAX_AL && pos[0] == al + 1
    ensures BlockApprox(order, z, b[0 := SetBit(b[0], al, DcBit(z[0], al))], Mark(pos, 0, 0, al))
  {
    hide Approx, SetBit, DcBit;
    DcRefined(z[0], al);
  }

  lemma DcRefined(v: int, al: nat)
    ensures SetBit(Approx(v, 0, al + 1), al, DcBit(v, al)) == Approx(v, 0, al)
  {
    var p, q := Pow2(al), v / (2 * Pow2(al));
    Pow2Positive(al);
    HalfDown(v, p);
    AddMultiple(0, p, 2 * q);
    TwiceInt(q, p, v / p % 2);
  }

  lemma TwiceInt(q: int, p: nat, bit: nat)
    ensures q * (2 * p) == p * (2 * q) && (2 * q + bit) * p == q * (2 * p) + bit * p
  {
  }

  // Once every position is down to zero the block is the original one.
  lemma Exact(order: seq<nat>, z: seq<int>, b: seq<int>, pos: seq<int>)
    requires ScanOrder(order, 63) && BlockApprox(order, z, b, pos) && forall k :: 0 <= k < 64 ==> pos[k] == 0
    ensures b == z
  {
    hide Approx;
    assert GoodOrder(order[..64]);
    forall i | 0 <= i < 64 ensures b[i] == z[i] {
      var k := Position(order[..64], i);
      AllBitsKnown(z[i], k);
    }
  }
}
