// What one call of arith_encode or arith_decode does, told from the bin and the
// interval before and after it: the laws of T.81 sections D.1.4 to D.1.5, for
// jpeg_aritab.
module ArithAdapt {
  import opened Bytes
  import opened Aritab
  import opened ArithInterval

  // ---- The bin ---------------------------------------------------------------------

  lemma JpegEntries(i: nat)
    requires i <= LAST_STATE
    ensures Qe(JPEG_ARITAB[i]) == JpegRow(i).qe && Nm(JPEG_ARITAB[i]) == JpegRow(i).nextMps
    ensures Nl(JPEG_ARITAB[i]) == JpegRow(i).switchMps * 0x80 + JpegRow(i).nextLps
  {
    hide V, Qe, Nm, Nl, JpegRow;
    assert JPEG_ARITAB[i] == JpegEntry(i);
  }

  // The estimate of the LPS that a bin stands for.
  function Estimated(sv: int): nat
    requires IsBin(sv)
  {
    Qe(JPEG_ARITAB[sv % 0x80])
  }

  // A bin learns exactly when its interval is renormalised. Its MPS makes the LPS
  // less likely and never changes which symbol is the MPS. The LPS makes the LPS
  // more likely, or else it was estimated near one half and the two change places.
  // The last states of the fast and of the fixed estimate are left as they are.
  predicate Learned(before: int, after: int, bit: int, renormalised: bool)
    requires IsBin(before) && IsBin(after)
  {
    && (after != before
        <==> renormalised && before % 0x80 != 113 && !(before % 0x80 == 13 && bit == before / 0x80))
    && (bit == before / 0x80 && after != before ==> Estimated(after) < Estimated(before))
    && (bit != before / 0x80 && after != before && after / 0x80 == before / 0x80 ==>
          Estimated(after) > Estimated(before))
    && (after / 0x80 != before / 0x80
        <==> bit != before / 0x80 && Estimated(before) >= 0x5570
             && before % 0x80 != 108 && before % 0x80 != 113)
  }

  lemma EstimatedIs(sv: int)
    requires IsBin(sv)
    ensures Estimated(sv) == JpegRow(sv % 0x80).qe
  {
    JpegEntries(sv % 0x80);
  }

  lemma RowLearns(sv: int, bit: int, after: int)
    requires IsBin(sv) && IsBin(after) && 0 <= bit <= 1
    requires var r := JpegRow(sv % 0x80);
             && after % 0x80 == (if bit == sv / 0x80 then r.nextMps else r.nextLps)
             && (after / 0x80 == sv / 0x80 <==> bit == sv / 0x80 || r.switchMps == 0)
    ensures Learned(sv, after, bit, true)
  {
    hide Estimated, JpegRow;
    EstimatedIs(sv);
    EstimatedIs(after);
    TableAdapts(sv % 0x80);
    assert after == sv <==> after % 0x80 == sv % 0x80 && after / 0x80 == sv / 0x80;
  }

  lemma EstimateLearns(sv: int, bit: int, n: int)
    requires IsBin(sv) && 0 <= bit <= 1
    requires var r := JpegRow(sv % 0x80);
             n == if bit == sv / 0x80 then r.nextMps else r.switchMps * 0x80 + r.nextLps
    ensures IsBin(n) && Learned(sv, Estimate(sv, n), bit, true)
  {
    hide Learned, JpegRow, Estimate;
    assert JpegRow(sv % 0x80).nextLps <= LAST_STATE;
    RowLearns(sv, bit, Estimate(sv, n));
  }

  predicate Adapted(before: State, after: State, d: Decision)
    requires GoodStats(before.stats) && GoodStats(after.stats)
    requires |after.stats| == |before.stats| && d.bin < |before.stats|
  {
    && Learned(before.stats[d.bin], after.stats[d.bin], d.bit, after.iv.shifts > before.iv.shifts)
    && forall i :: 0 <= i < |before.stats| && i != d.bin ==> after.stats[i] == before.stats[i]
  }

  lemma CodeAdapts(s: State, d: Decision)
    requires GoodState(s) && GoodDecision(d, |s.stats|)
    ensures Adapted(s, Code(JPEG_ARITAB, s, d), d)
  {
    hide Qe, Nl, Nm, JPEG_ARITAB, JpegRow, Estimate, Estimated, Learned;
    var sv := s.stats[d.bin];
    RenormIs(Part(s.iv, Qe(JPEG_ARITAB[sv % 0x80]), d.bit != Mps(sv)));
    JpegEntries(sv % 0x80);
    var r := JpegRow(sv % 0x80);
    EstimateLearns(sv, d.bit, if d.bit == sv / 0x80 then r.nextMps else r.switchMps * 0x80 + r.nextLps);
    if d.bit == sv / 0x80 { NotLearned(sv); }
  }

  // An MPS without a renormalisation.
  lemma NotLearned(sv: int)
    requires IsBin(sv)
    ensures Learned(sv, sv, sv / 0x80, false)
  {
  }

  // Coding a bin's MPS any number of times never raises its estimate of the LPS.
  lemma {:induction false} MpsOnlyLowers(s: State, ds: seq<Decision>, b: nat)
    requires GoodState(s) && GoodDecisions(ds, |s.stats|) && b < |s.stats|
    requires forall i :: 0 <= i < |ds| && ds[i].bin == b ==> ds[i].bit == s.stats[b] / 0x80
    ensures var after := Run(JPEG_ARITAB, s, ds).stats[b];
            after / 0x80 == s.stats[b] / 0x80 && Estimated(after) <= Estimated(s.stats[b])
    decreases |ds|
  {
    hide Estimated;
    if ds != [] {
      var es := ds[..|ds| - 1];
      MpsOnlyLowers(s, es, b);
      CodeAdapts(Run(JPEG_ARITAB, s, es), ds[|ds| - 1]);
    }
  }

  // ---- The interval ----------------------------------------------------------------

  // Renormalising doubles as often as it takes to reach 0x8000, and no more.
  lemma {:induction false} RenormIs(iv: Interval)
    requires 0 < iv.range <= 0x1_0000
    ensures var k := Renorm(iv).shifts - iv.shifts;
            && Renorm(iv) == Interval(iv.low * Pow2(k), iv.range * Pow2(k), iv.shifts + k)
            && (k == 0 <==> iv.range >= 0x8000)
            && (k > 0 ==> iv.range * Pow2(k - 1) < 0x8000)
    decreases 0x1_0000 - iv.range
  {
    if iv.range < 0x8000 {
      RenormIs(Double(iv));
      var k := Renorm(iv).shifts - iv.shifts;
      Doubled(iv.low, Pow2(k - 1));
      Doubled(iv.range, Pow2(k - 1));
      if k > 1 { Doubled(iv.range, Pow2(k - 2)); }
    }
  }

  lemma Doubled(x: nat, w: nat)
    ensures 2 * x * w == x * (2 * w)
  {
  }

  // The LPS is given the narrower of the two parts Qe wide and range - Qe wide
  // (the part Qe wide when they are equal), the MPS the other; the part Qe wide is the upper one.
  lemma CodeSplits(t: Table, s: State, d: Decision)
    requires GoodState(s) && GoodDecision(d, |s.stats|)
    ensures var r, sv := Code(t, s, d).iv, s.stats[d.bin];
            var qe := Qe(t[sv % 0x80]);
            var rest := s.iv.range - qe;
            var width := if (d.bit == sv / 0x80) == (rest >= qe) then rest else qe;
            var low := if (d.bit == sv / 0x80) == (rest >= qe) then s.iv.low else s.iv.low + rest;
            var k := r.shifts - s.iv.shifts;
            && k >= 0 && r.low == low * Pow2(k) && r.range == width * Pow2(k)
            && (k > 0 ==> width * Pow2(k - 1) < 0x8000) && 0x8000 <= r.range <= 0x1_0000
            && (d.bit != sv / 0x80 ==> width <= s.iv.range - width && k > 0)
  {
    hide Qe;
    var sv := s.stats[d.bin];
    RenormIs(Part(s.iv, Qe(t[sv % 0x80]), d.bit != Mps(sv)));
  }
}
