// The symbols of a block written out: sections F.1.2 and G.1.2 of ITU-T T.81.
module HuffFigures {
  import opened Coefs
  import opened Bytes
  import opened HuffTokens
  import opened HuffBlock
  import opened ProgTokens
  import opened ProgDc
  import H = HuffSeqScan

  // ---- Values ----------------------------------------------------------------------------------------------------

  // The number of bits of a magnitude.
  function Size(v: int): (n: nat)
    requires v != 0
    ensures n > 0 && Pow2(n - 1) <= (if v < 0 then -v else v) < Pow2(n)
  {
    BitLenBounds(Abs(v));
    BitLen(Abs(v))
  }

  lemma SizeIs(v: int, n: nat)
    requires v != 0 && n > 0 && Pow2(n - 1) <= Abs(v) < Pow2(n)
    ensures Size(v) == n
  {
    var m := Size(v);
    if m < n { Pow2Mono(m, n - 1); }
    if n < m { Pow2Mono(n, m - 1); }
  }

  // The value itself if it is positive, and what is missing to 2^n - 1 if it is negative.
  function ValueBits(v: int): Token
    requires v != 0
  {
    Raw(if v > 0 then v else Pow2(Size(v)) - 1 + v, Size(v))
  }

  // A DC difference: its size, then its bits.
  lemma DcTokensAre(tbl: nat, d: int)
    requires tbl < NUM_HUFF_TBLS && DcInRange(d)
    ensures DcTokens(tbl, d) == if d == 0 then [Sym(true, tbl, 0)] else [Sym(true, tbl, Size(d)), ValueBits(d)]
  {
  }

  // A coefficient v after r zeros: sixteen of them at a time, then the rest of them with the
  // size of the value, then its bits.
  function ValueFigure(tbl: nat, r: nat, v: int): seq<Token>
    requires v != 0
  {
    seq(r / 16, _ => Sym(false, tbl, 0xF0)) + [Sym(false, tbl, 16 * (r % 16) + Size(v)), ValueBits(v)]
  }

  lemma {:induction false} NonzeroTokensAre(tbl: nat, r: nat, v: int)
    requires tbl < NUM_HUFF_TBLS && v != 0 && AcInRange(v)
    ensures NonzeroTokens(tbl, r, v) == ValueFigure(tbl, r, v)
    decreases r
  {
    if r > 15 {
      NonzeroTokensAre(tbl, r - 16, v);
      assert r / 16 == 1 + (r - 16) / 16 && r % 16 == (r - 16) % 16;
      OneMoreOf(r / 16, Sym(false, tbl, 0xF0));
    } else {
      assert r / 16 == 0 && r % 16 == r;
    }
  }

  lemma OneMoreOf(n: nat, x: Token)
    requires n > 0
    ensures seq(n, _ => x) == [x] + seq(n - 1, _ => x)
  {
  }

  // ---- Coefficients ----------------------------------------------------------------------------------------------

  // The number of zeros right before place k, from place lo on.
  function ZerosBefore(z: seq<int>, lo: nat, k: nat): (r: nat)
    requires lo <= k <= |z|
    ensures r <= k - lo && (forall j :: k - r <= j < k ==> z[j] == 0) && (k - r > lo ==> z[k - r - 1] != 0)
  {
    if k == lo || z[k - 1] != 0 then 0 else 1 + ZerosBefore(z, lo, k - 1)
  }

  // The nonzero coefficients from k on, each with the zeros right before it.
  function CoefFigures(tbl: nat, z: seq<int>, lo: nat, k: nat): seq<Token>
    requires lo <= k
    decreases |z| - k
  {
    if k >= |z| then []
    else (if z[k] == 0 then [] else ValueFigure(tbl, ZerosBefore(z, lo, k), z[k])) + CoefFigures(tbl, z, lo, k + 1)
  }

  lemma {:induction false} AcTokensFrom(tbl: nat, z: seq<int>, k: nat)
    requires tbl < NUM_HUFF_TBLS && (forall i :: 1 <= i < |z| ==> AcInRange(z[i])) && 1 <= k <= |z|
    ensures AcTokens(tbl, z, k, ZerosBefore(z, 1, k))
         == CoefFigures(tbl, z, 1, k) + if |z| > 1 && z[|z| - 1] == 0 then [Sym(false, tbl, 0)] else []
    decreases |z| - k
  {
    hide ValueFigure;
    if k < |z| {
      AcTokensFrom(tbl, z, k + 1);
      if z[k] != 0 { NonzeroTokensAre(tbl, ZerosBefore(z, 1, k), z[k]); }
    }
  }

  // The AC coefficients of a block, and an end-of-block symbol if it does not end in a
  // nonzero one.
  lemma AcTokensAre(tbl: nat, z: seq<int>)
    requires tbl < NUM_HUFF_TBLS && (forall i :: 1 <= i < |z| ==> AcInRange(z[i])) && |z| > 0
    ensures AcTokens(tbl, z, 1, 0)
         == CoefFigures(tbl, z, 1, 1) + if |z| > 1 && z[|z| - 1] == 0 then [Sym(false, tbl, 0)] else []
  {
    AcTokensFrom(tbl, z, 1);
  }

  // ---- First scans of a band -------------------------------------------------------------------------------------

  lemma {:induction false} CoefTokensFrom(tbl: nat, t: seq<int>, k: nat)
    requires tbl < NUM_HUFF_TBLS && BandInRange(t) && k <= |t|
    ensures CoefTokens(tbl, t, k, ZerosBefore(t, 0, k)) == CoefFigures(tbl, t, 0, k)
    decreases |t| - k
  {
    hide ValueFigure;
    if k < |t| {
      CoefTokensFrom(tbl, t, k + 1);
      if t[k] != 0 { NonzeroTokensAre(tbl, ZerosBefore(t, 0, k), t[k]); }
    }
  }

  // A run of blocks: the size of its number less one in the upper half of the symbol, then
  // the bits below the leading one, which are the lowest ones.
  lemma EobTokensAre(tbl: nat, e: nat, n: nat)
    requires tbl < NUM_HUFF_TBLS && 0 < e <= 0x7FFF && Pow2(n) <= e < 2 * Pow2(n)
    ensures EobTokens(tbl, e) == [Sym(false, tbl, 16 * n)] + if n == 0 then [] else [Raw(e, n)]
  {
    assert Pow2(n + 1) == 2 * Pow2(n);
    hide Pow2, BitLen;
    SizeIs(e, n + 1);
  }

  // One block of a first scan after e blocks that had nothing to send: as it is, its nonzero
  // coefficients follow the run of those blocks; it joins the run if it ends in zeros; and a
  // run of 32767 blocks is sent at once.
  lemma StepFirstIs(tbl: nat, t: seq<int>, e: nat)
    requires tbl < NUM_HUFF_TBLS && BandInRange(t) && t != [] && e < 0x7FFF
    ensures var s, some := StepFirst(tbl, t, e), exists k :: 0 <= k < |t| && t[k] != 0;
            && (some ==> s.toks == EobTokens(tbl, e) + CoefFigures(tbl, t, 0, 0))
            && (some ==> s.run == if t[|t| - 1] == 0 then 1 else 0)
            && (!some && e < 0x7FFE ==> s == FirstStep([], e + 1))
            && (!some && e == 0x7FFE ==> s == FirstStep(EobTokens(tbl, 0x7FFF), 0))
  {
    hide EobTokens, CoefTokens, CoefFigures;
    CoefTokensFrom(tbl, t, 0);
  }

  // ---- Refinement of a band --------------------------------------------------------------------------------------

  // The coefficients that are zero after the point transform, from place a to before b.
  function Zeros(m: seq<Mag>, a: nat, b: nat): nat
    requires a <= b <= |m|
  {
    if a == b then 0 else Zeros(m, a, b - 1) + if m[b - 1].abs == 0 then 1 else 0
  }

  // The next bits of those that were known before.
  function NextBits(m: seq<Mag>, a: nat, b: nat): (bits: seq<bool>)
    requires a <= b <= |m|
  {
    if a == b then [] else NextBits(m, a, b - 1) + if m[b - 1].abs > 1 then [m[b - 1].abs % 2 == 1] else []
  }

  // From k on the next coefficient to stop at is the one at j: it is new, or known and
  // behind sixteen zeros, and nothing of either kind comes before it.
  predicate NextStop(m: seq<Mag>, k: nat, r: nat, j: nat) {
    && k <= j < |m| && (m[j].abs == 1 || (m[j].abs > 1 && r + Zeros(m, k, j) > 15))
    && forall i :: k <= i < j ==> m[i].abs != 1 && (m[i].abs > 1 ==> r + Zeros(m, k, i) <= 15)
  }

  // What is sent there: sixteen zeros, or the zeros and the sign of the new coefficient;
  // and then the next bits of the known coefficients that have been passed.
  lemma {:induction false} RefineTokensAre(tbl: nat, m: seq<Mag>, k: nat, r: nat, j: nat)
    requires tbl < NUM_HUFF_TBLS && NextStop(m, k, r, j) && (exists i :: j <= i < |m| && m[i].abs == 1)
    ensures var zeros, bits := r + Zeros(m, k, j), RawBits(NextBits(m, k, j));
            RefineTokens(tbl, m, k, r, []) ==
              if zeros > 15 then [Sym(false, tbl, 0xF0)] + bits + RefineTokens(tbl, m, j, zeros - 16, [])
              else [Sym(false, tbl, 16 * zeros + 1), Raw(if m[j].neg then 0 else 1, 1)] + bits
                   + RefineTokens(tbl, m, j + 1, 0, [])
  {
    NewEndBehind(m, j);
    PassTo(tbl, m, k, r, j, j);
  }

  lemma NewEndBehind(m: seq<Mag>, j: nat)
    requires exists i :: j <= i < |m| && m[i].abs == 1
    ensures j < NewEnd(m)
  {
  }

  lemma PassOne(tbl: nat, m: seq<Mag>, i: nat, r: nat, br: seq<bool>)
    requires tbl < NUM_HUFF_TBLS && i < NewEnd(m) && m[i].abs != 1 && (m[i].abs > 1 ==> r <= 15)
    ensures RefineTokens(tbl, m, i, r, br) ==
              if m[i].abs == 0 then RefineTokens(tbl, m, i + 1, r + 1, br)
              else RefineTokens(tbl, m, i + 1, r, br + [m[i].abs % 2 == 1])
  {
  }

  lemma OnePassed(m: seq<Mag>, k: nat, i: nat)
    requires k <= i < |m| && m[i].abs != 1
    ensures Zeros(m, k, i + 1) == Zeros(m, k, i) + if m[i].abs == 0 then 1 else 0
    ensures NextBits(m, k, i + 1) == if m[i].abs == 0 then NextBits(m, k, i)
                                     else NextBits(m, k, i) + [m[i].abs % 2 == 1]
  {
  }

  lemma {:induction false} PassTo(tbl: nat, m: seq<Mag>, k: nat, r: nat, j: nat, i: nat)
    requires tbl < NUM_HUFF_TBLS && NextStop(m, k, r, j) && k <= i <= j && j < NewEnd(m)
    ensures RefineTokens(tbl, m, k, r, []) == RefineTokens(tbl, m, i, r + Zeros(m, k, i), NextBits(m, k, i))
    decreases i
  {
    hide RefineTokens;
    if i > k {
      PassTo(tbl, m, k, r, j, i - 1);
      OnePassed(m, k, i - 1);
      PassOne(tbl, m, i - 1, r + Zeros(m, k, i - 1), NextBits(m, k, i - 1));
    }
  }

  // Behind the last new coefficient nothing more is sent with symbols of their own.
  lemma NothingNew(tbl: nat, m: seq<Mag>, k: nat, r: nat, br: seq<bool>)
    requires tbl < NUM_HUFF_TBLS && forall i :: k <= i < |m| ==> m[i].abs != 1
    ensures RefineTokens(tbl, m, k, r, br) == []
  {
  }

  // One block of a refinement scan after e blocks that wait with the bits be. With a new
  // coefficient it sends the run and its own symbols, and only what is behind its last new
  // coefficient waits; without one it waits as a whole. When there is nothing behind, nothing
  // waits; and a run of 32767 blocks, or one with more than 937 bits, is sent at once.
  lemma StepRefineIs(tbl: nat, m: seq<Mag>, e: nat, be: seq<bool>, last: nat)
    requires tbl < NUM_HUFF_TBLS && m != [] && e < 0x7FFF && (e == 0 ==> be == []) && last <= |m|
    requires (last > 0 ==> m[last - 1].abs == 1) && forall i :: last <= i < |m| ==> m[i].abs != 1
    ensures var s := StepRefine(tbl, m, e, be);
            var sent := if last > 0 then EobTokens(tbl, e) + RawBits(be) + RefineTokens(tbl, m, 0, 0, []) else [];
            var run := if last > 0 then 1 else e + 1;
            var bits := (if last > 0 then [] else be) + NextBits(m, last, |m|);
            && (last == |m| ==> s == RefineStep(sent, 0, []))
            && (last < |m| && (run == 0x7FFF || |bits| > 937) ==>
                  s == RefineStep(sent + (EobTokens(tbl, run) + RawBits(bits)), 0, []))
            && (last < |m| && run < 0x7FFF && |bits| <= 937 ==> s == RefineStep(sent, run, bits))
  {
    hide EobTokens, RefineTokens, NextBits, Corrections;
    CorrectionsAre(m, last, |m|);
    NoCorrections(m);
    assert NewEnd(m) == last;
  }

  lemma NoCorrections(m: seq<Mag>)
    ensures Corrections(m, |m|) == []
  {
  }

  lemma {:induction false} CorrectionsAre(m: seq<Mag>, a: nat, b: nat)
    requires a <= b <= |m|
    ensures NextBits(m, a, b) + Corrections(m, b) == Corrections(m, a)
    decreases b
  {
    hide NextBits, Corrections;
    CorrectionsStep(m, a, b);
    if a < b { CorrectionsAre(m, a, b - 1); }
  }

  lemma CorrectionsStep(m: seq<Mag>, a: nat, b: nat)
    requires a <= b <= |m|
    ensures a == b ==> NextBits(m, a, b) == []
    ensures a < b ==>
              NextBits(m, a, b) + Corrections(m, b) == NextBits(m, a, b - 1) + Corrections(m, b - 1)
  {
  }

  // ---- MCUs ------------------------------------------------------------------------------------------------------

  // The symbols of a block from its own component's tables: the difference to the last DC value
  // of that component, then the AC coefficients.
  function BlockFigure(dcTbl: nat, acTbl: nat, z: seq<int>, last: int): seq<Token>
    requires |z| > 0
  {
    var d := z[0] - last;
    (if d == 0 then [Sym(true, dcTbl, 0)] else [Sym(true, dcTbl, Size(d)), ValueBits(d)])
    + CoefFigures(acTbl, z, 1, 1) + (if |z| > 1 && z[|z| - 1] == 0 then [Sym(false, acTbl, 0)] else [])
  }

  // The blocks of an MCU of a sequential scan come one after the other, and each leaves its DC
  // value to the next one of its component.
  lemma McuTokensAre(s: H.Scan, last: seq<int>, mcu: seq<seq<int>>, i: nat)
    requires H.GoodScan(s) && H.GoodMcu(s, mcu) && |last| == |s.comps| && i < |mcu| && H.McuInRange(s, last, mcu, i)
    ensures var ci := s.membership[i];
            var z, next := seq(s.se + 1, k requires 0 <= k <= s.se => mcu[i][s.order[k]]), last[ci := mcu[i][0]];
            && H.McuInRange(s, next, mcu, i + 1)
            && H.McuTokens(s, last, mcu, i)
               == BlockFigure(s.comps[ci].dcTbl, s.comps[ci].acTbl, z, last[ci]) + H.McuTokens(s, next, mcu, i + 1)
            && H.LastAfter(s, last, mcu, i) == H.LastAfter(s, next, mcu, i + 1)
  {
    hide DcTokens, AcTokens, CoefFigures, ValueBits;
    var z, c := H.BandOf(s, mcu, i), H.CompOf(s, i);
    assert z == seq(s.se + 1, k requires 0 <= k <= s.se => mcu[i][s.order[k]]);
    DcTokensAre(c.dcTbl, z[0] - last[s.membership[i]]);
    AcTokensAre(c.acTbl, z);
  }

  // A first DC scan sends the difference of the shifted values.
  lemma DcScanTokensAre(tbls: seq<nat>, last: seq<int>, units: seq<Unit>, al: nat)
    requires GoodUnits(tbls, units) && |last| == |tbls| && DcFits(tbls, last, units, al) && units != []
    ensures var ci, v := units[0].ci, units[0].dc / Pow2(al);
            var d, next := v - last[ci], last[ci := v];
            && GoodUnits(tbls, units[1..]) && DcFits(tbls, next, units[1..], al)
            && DcScanTokens(tbls, last, units, al)
               == (if d == 0 then [Sym(true, tbls[ci], 0)] else [Sym(true, tbls[ci], Size(d)), ValueBits(d)])
                  + DcScanTokens(tbls, next, units[1..], al)
  {
    hide ValueBits, DcTokens, DcInRange, Pow2;
    DcTokensAre(tbls[units[0].ci], units[0].dc / Pow2(al) - last[units[0].ci]);
  }

  // A DC refinement scan sends one bit of each value.
  lemma DcBitsAre(units: seq<Unit>, al: nat, i: nat)
    requires i < |units|
    ensures |DcBits(units, al)| == |units| && (DcBits(units, al)[i] <==> units[i].dc / Pow2(al) % 2 == 1)
  {
  }
}
