// The decisions of a block written out, with the addresses of their bins: Figures F.4 to
// F.9 and Tables F.4 and F.5 of ITU-T T.81.
module ArithFigures {
  import opened Coefs
  import opened Division
  import opened Bytes
  import opened ArithInterval
  import opened ArithBinarise

  // ---- Magnitudes ------------------------------------------------------------------------------------------------

  // n ones in successive bins and then a zero.
  function OnesAndZero(st: nat, n: nat): (ds: seq<Decision>)
    ensures |ds| == n + 1
    ensures forall i :: 0 <= i <= n ==> ds[i] == Decision(st + i, if i < n then 1 else 0)
  {
    seq(n + 1, i requires 0 <= i <= n => Decision(st + i, if i < n then 1 else 0))
  }

  function BitOf(v: nat, i: nat): (b: nat)
    ensures b <= 1
  {
    v / Pow2(i) % 2
  }

  // The lowest n bits of v, the highest of them first, in one bin.
  function LowBits(st: nat, v: nat, n: nat): (ds: seq<Decision>)
    ensures |ds| == n
    ensures forall i :: 0 <= i < n ==> ds[i] == Decision(st, BitOf(v, n - 1 - i))
  {
    seq(n, i requires 0 <= i < n => Decision(st, BitOf(v, n - 1 - i)))
  }

  lemma {:induction false} CategoryIs(st: nat, n: nat, next: seq<Decision>)
    ensures Category(st, n, next) == OnesAndZero(st, n) + next
    decreases n
  {
    if n > 0 {
      CategoryIs(st + 1, n - 1, next);
      assert OnesAndZero(st, n) == [Decision(st, 1)] + OnesAndZero(st + 1, n - 1);
    } else {
      assert OnesAndZero(st, 0) == [Decision(st, 0)];
    }
  }

  // Without its leading one a number of n + 1 bits has the same lower bits.
  lemma BelowTheTop(v: nat, n: nat, i: nat)
    requires Pow2(n) <= v && i < n
    ensures BitOf(v, i) == BitOf(v - Pow2(n), i)
  {
    hide Pow2;
    var w, k := Pow2(i), Pow2(n - i - 1);
    Pow2Add(i, n - i);
    Pow2Next(n - i - 1);
    assert Pow2(n) == w * (2 * k);
    AddMultiple(v - Pow2(n), w, 2 * k);
    SameParity((v - Pow2(n)) / w, k);
  }

  lemma Pow2Next(n: nat)
    ensures Pow2(n + 1) == 2 * Pow2(n)
  {
  }

  lemma SameParity(x: nat, k: nat)
    ensures (x + 2 * k) % 2 == x % 2
  {
  }

  lemma TopBit(v: nat, n: nat)
    requires n > 0 && v < Pow2(n)
    ensures BitOf(v, n - 1) == if v >= Pow2(n - 1) then 1 else 0
  {
    var w := Pow2(n - 1);
    if v >= w { DivIs(v, w, 1, v - w); } else { DivIs(v, w, 0, v); }
  }

  lemma SameLowBits(st: nat, v: nat, n: nat, m: nat)
    requires Pow2(n) <= v && m <= n
    ensures LowBits(st, v - Pow2(n), m) == LowBits(st, v, m)
  {
    hide BitOf, Pow2;
    forall i | 0 <= i < m ensures LowBits(st, v - Pow2(n), m)[i] == LowBits(st, v, m)[i] {
      BelowTheTop(v, n, m - 1 - i);
    }
  }

  lemma LowBitsStep(st: nat, v: nat, n: nat)
    requires n > 0
    ensures LowBits(st, v, n) == [Decision(st, BitOf(v, n - 1))] + LowBits(st, v, n - 1)
  {
    hide BitOf;
  }

  lemma {:induction false} PatternIs(st: nat, v: nat, n: nat, next: seq<Decision>)
    requires v < Pow2(n)
    ensures Pattern(st, v, n, next) == LowBits(st, v, n) + next
    decreases n
  {
    hide BitOf, LowBits;
    if n > 0 {
      var w := Pow2(n - 1);
      TopBit(v, n);
      LowBitsStep(st, v, n);
      if v >= w { SameLowBits(st, v, n - 1, n - 1); }
      PatternIs(st, if v >= w then v - w else v, n - 1, next);
    }
  }

  // ---- DC differences --------------------------------------------------------------------------------------------

  // A difference in category ctx of table t: is it zero, which sign has it, is it more than
  // 1, how many bits has the rest, and which are they.
  function DcFigure(t: nat, ctx: nat, d: int, n: nat): seq<Decision> {
    if d == 0 then [Decision(64 * t + ctx, 0)]
    else
      var sign := if d > 0 then 0 else 1;
      var more := (if d > 0 then d else -d) - 1;
      [Decision(64 * t + ctx, 1), Decision(64 * t + ctx + 1, sign)]
      + if more == 0 then [Decision(64 * t + ctx + 2 + sign, 0)]
        else [Decision(64 * t + ctx + 2 + sign, 1)] + OnesAndZero(64 * t + 20, n)
             + LowBits(64 * t + 20 + n + 14, more, n)
  }

  // n is the number of bits below the leading one.
  predicate BitsBelowTop(more: nat, n: nat) {
    more == 0 || Pow2(n) <= more < 2 * Pow2(n)
  }

  lemma BitsAreUnique(v: nat, m: nat, n: nat)
    requires v > 0 && BitsBelowTop(v, m) && BitsBelowTop(v, n)
    ensures m == n
  {
    if m < n { Pow2Mono(m + 1, n); }
    if n < m { Pow2Mono(n + 1, m); }
  }

  lemma DcDecisionsAre(c: Comp, ctx: nat, d: int, n: nat, next: seq<Decision>)
    requires GoodComp(c) && GoodCtx(ctx) && InLimit(d) && (d != 0 ==> BitsBelowTop(Abs(d) - 1, n))
    ensures DcDecisions(c, ctx, d, next) == DcFigure(c.dcTbl, ctx, d, n) + next
  {
    hide Log2, Category, Pattern, LowBits, OnesAndZero, Pow2;
    if d != 0 {
      var v: nat := Abs(d) - 1;
      if v > 0 {
        BitsAreUnique(v, Log2(v), n);
        var x := 64 * c.dcTbl + 20;
        CategoryIs(x, n, Pattern(x + n + 14, v - Pow2(n), n, next));
        PatternIs(x + n + 14, v - Pow2(n), n, next);
        SameLowBits(x + n + 14, v, n, n);
        var sp := 64 * c.dcTbl + ctx + 2 + Sign(d);
        assert DcMagnitude(c.dcTbl, sp, v, next)
            == [Decision(sp, 1)] + (OnesAndZero(x, n) + (LowBits(x + n + 14, v, n) + next));
      }
    }
  }

  // Section F.1.4.4.1.2: zero differences are those up to 2^(L-1), large ones those above 2^U.
  lemma NextCtxIs(c: Comp, d: int)
    ensures NextCtx(c, d) ==
              if Abs(d) <= Pow2(c.dcL) / 2 then 0
              else (if d > 0 then 4 else 8) + if Abs(d) > Pow2(c.dcU) then 8 else 0
  {
    if d != 0 && Abs(d) > 1 {
      var v: nat := Abs(d) - 1;
      PowerBelow(v, Log2(v), c.dcL);
      PowerAbove(v, Log2(v), c.dcU);
    } else if d != 0 {
      OneAbove(c.dcL);
      OneAbove(c.dcU);
    }
  }

  lemma OneAbove(l: nat)
    ensures Pow2(l) >= 1 && (0 < Pow2(l) / 2 <==> 1 <= Pow2(l) / 2)
  {
  }

  // The leading power of two of v is below half of 2^l exactly when v is.
  lemma PowerBelow(v: nat, n: nat, l: nat)
    requires Pow2(n) <= v < 2 * Pow2(n)
    ensures Pow2(n) < Pow2(l) / 2 <==> v + 1 <= Pow2(l) / 2
  {
    if n + 1 < l { Pow2Mono(n + 1, l - 1); } else if l > 0 { Pow2Mono(l - 1, n); }
  }

  lemma PowerAbove(v: nat, n: nat, u: nat)
    requires Pow2(n) <= v < 2 * Pow2(n)
    ensures Pow2(n) > Pow2(u) / 2 <==> v + 1 > Pow2(u)
  {
    if n < u { Pow2Mono(n + 1, u); Pow2Mono(n, u - 1); } else { Pow2Mono(u, n); }
  }

  // ---- AC coefficients -------------------------------------------------------------------------------------------

  // The magnitude of a nonzero coefficient less one: is it more than 0, more than 1, how many
  // bits has the rest, and which are they. Coefficients up to kx have other bins than those above.
  function AcRest(t: nat, kx: nat, k: nat, more: nat): seq<Decision> {
    var st := 1024 + 256 * t + 3 * (k - 1) + 2;
    if more == 0 then [Decision(st, 0)]
    else if more == 1 then [Decision(st, 1), Decision(st, 0)]
    else
      var n, x := Log2(more), 1024 + 256 * t + if k <= kx then 189 else 217;
      [Decision(st, 1), Decision(st, 1)] + OnesAndZero(x, n - 1) + LowBits(x + n - 1 + 14, more, n)
  }

  // All coefficients from k on are zero.
  predicate NoneFrom(z: seq<int>, limSe: nat, k: nat)
    requires limSe < |z|
  {
    forall j :: k <= j <= limSe ==> z[j] == 0
  }

  // At the start of the block and after each nonzero coefficient: is this the end?
  function EndFigure(t: nat, z: seq<int>, limSe: nat, k: nat): seq<Decision>
    requires limSe < |z| && 1 <= k <= limSe
  {
    if k == 1 || z[k - 1] != 0 then [Decision(1024 + 256 * t + 3 * (k - 1), if NoneFrom(z, limSe, k) then 1 else 0)]
    else []
  }

  // If it is not, is this coefficient zero? If it is not either, its sign and magnitude.
  function CoefFigure(t: nat, kx: nat, z: seq<int>, limSe: nat, k: nat): seq<Decision>
    requires limSe < |z| && 1 <= k <= limSe
  {
    var st := 1024 + 256 * t + 3 * (k - 1) + 1;
    if NoneFrom(z, limSe, k) then []
    else if z[k] == 0 then [Decision(st, 0)]
    else [Decision(st, 1), Decision(5120, if z[k] > 0 then 0 else 1)]
         + AcRest(t, kx, k, (if z[k] > 0 then z[k] else -z[k]) - 1)
  }

  // The coefficients from k on.
  function AcFigures(t: nat, kx: nat, z: seq<int>, limSe: nat, k: nat): seq<Decision>
    requires limSe < |z| && 1 <= k
    decreases limSe + 1 - k
  {
    if k > limSe then []
    else EndFigure(t, z, limSe, k) + CoefFigure(t, kx, z, limSe, k) + AcFigures(t, kx, z, limSe, k + 1)
  }

  lemma {:induction false} NothingBehind(t: nat, kx: nat, z: seq<int>, limSe: nat, k: nat)
    requires limSe < |z| && 1 < k && NoneFrom(z, limSe, k - 1) && k - 1 <= limSe
    ensures AcFigures(t, kx, z, limSe, k) == []
    decreases limSe + 1 - k
  {
    if k <= limSe { NothingBehind(t, kx, z, limSe, k + 1); }
  }

  lemma AcMagnitudeIs(t: nat, k: nat, kx: nat, v: nat, next: seq<Decision>)
    requires t < NUM_ARITH_TBLS && v < MAG_LIMIT && 1 <= k < 64
    ensures AcMagnitude(t, k, kx, 1024 + 256 * t + 3 * (k - 1) + 2, v, next) == AcRest(t, kx, k, v) + next
  {
    hide Log2, Category, Pattern, LowBits, OnesAndZero, Pow2;
    if v > 1 {
      Log2Limit(v);
      TwoOrMore(v);
      var n, x := Log2(v), AcCategoryBin(t, k, kx);
      CategoryIs(x, n - 1, Pattern(x + n + 13, v - Pow2(n), n, next));
      PatternIs(x + n + 13, v - Pow2(n), n, next);
      SameLowBits(x + n + 13, v, n, n);
      var st := Decision(1024 + 256 * t + 3 * (k - 1) + 2, 1);
      Joined(st, OnesAndZero(x, n - 1), LowBits(x + n + 13, v, n), next);
    }
  }

  lemma TwoOrMore(v: nat)
    requires v > 1
    ensures Log2(v) > 0
  {
  }

  lemma Joined(d: Decision, a: seq<Decision>, b: seq<Decision>, next: seq<Decision>)
    ensures [d] + ([d] + (a + (b + next))) == ([d, d] + a + b) + next
  {
  }

  lemma ZeroCoef(c: Comp, z: seq<int>, limSe: nat, k: nat)
    requires GoodComp(c) && limSe < |z| && limSe < 64 && 1 <= k < limSe && z[k] == 0 && !NoneFrom(z, limSe, k)
    ensures CoefFigure(c.acTbl, c.acK, z, limSe, k) == [Decision(EobBin(c, k) + 1, 0)]
    ensures AcFigures(c.acTbl, c.acK, z, limSe, k + 1)
         == CoefFigure(c.acTbl, c.acK, z, limSe, k + 1) + AcFigures(c.acTbl, c.acK, z, limSe, k + 2)
  {
    hide CoefFigure;
    ZeroFigure(c, z, limSe, k);
    assert EndFigure(c.acTbl, z, limSe, k + 1) == [];
  }

  lemma ZeroFigure(c: Comp, z: seq<int>, limSe: nat, k: nat)
    requires GoodComp(c) && limSe < |z| && limSe < 64 && 1 <= k <= limSe && z[k] == 0 && !NoneFrom(z, limSe, k)
    ensures CoefFigure(c.acTbl, c.acK, z, limSe, k) == [Decision(EobBin(c, k) + 1, 0)]
  {
  }

  lemma NonzeroCoef(c: Comp, z: seq<int>, limSe: nat, k: nat, more: seq<Decision>)
    requires GoodComp(c) && GoodBlock(z, limSe) && 1 <= k <= limSe && z[k] != 0
    ensures InLimit(z[k]) && NonzeroAt(c, z[k], k, more) == CoefFigure(c.acTbl, c.acK, z, limSe, k) + more
  {
    hide AcRest, AcMagnitude;
    AcMagnitudeIs(c.acTbl, k, c.acK, Abs(z[k]) - 1, more);
    assert !NoneFrom(z, limSe, k);
  }

  lemma {:induction false} RunIs(c: Comp, z: seq<int>, limSe: nat, k: nat, ke: nat, next: seq<Decision>)
    requires GoodComp(c) && GoodBlock(z, limSe) && 1 <= k <= ke <= limSe && z[ke] != 0 && NoneFrom(z, limSe, ke + 1)
    ensures RunFrom(c, z, limSe, k, ke, next)
         == CoefFigure(c.acTbl, c.acK, z, limSe, k) + AcFigures(c.acTbl, c.acK, z, limSe, k + 1) + next
    decreases limSe + 1 - k, 0
  {
    hide CoefFigure, AcFigures, NonzeroAt;
    if z[k] == 0 {
      RunIs(c, z, limSe, k + 1, ke, next);
      ZeroCoef(c, z, limSe, k);
    } else {
      EndsIs(c, z, limSe, k + 1, ke, next);
      NonzeroCoef(c, z, limSe, k, AcFrom(c, z, limSe, k + 1, ke, next));
    }
  }

  lemma AtTheEnd(c: Comp, z: seq<int>, limSe: nat, k: nat)
    requires GoodComp(c) && limSe < |z| && limSe < 64 && 1 <= k <= limSe && NoneFrom(z, limSe, k)
        && (k == 1 || z[k - 1] != 0)
    ensures AcFigures(c.acTbl, c.acK, z, limSe, k) == [Decision(EobBin(c, k), 1)]
  {
    NothingBehind(c.acTbl, c.acK, z, limSe, k + 1);
  }

  lemma NotTheEnd(c: Comp, z: seq<int>, limSe: nat, k: nat)
    requires GoodComp(c) && limSe < |z| && limSe < 64 && 1 <= k <= limSe && !NoneFrom(z, limSe, k)
        && (k == 1 || z[k - 1] != 0)
    ensures AcFigures(c.acTbl, c.acK, z, limSe, k)
         == [Decision(EobBin(c, k), 0)] + CoefFigure(c.acTbl, c.acK, z, limSe, k)
            + AcFigures(c.acTbl, c.acK, z, limSe, k + 1)
  {
    hide CoefFigure;
  }

  lemma {:induction false} EndsIs(c: Comp, z: seq<int>, limSe: nat, k: nat, ke: nat, next: seq<Decision>)
    requires GoodComp(c) && GoodBlock(z, limSe) && 1 <= k <= limSe + 1 && ke <= limSe && (ke > 0 ==> z[ke] != 0)
    requires NoneFrom(z, limSe, ke + 1) && (k == 1 || z[k - 1] != 0)
    ensures AcFrom(c, z, limSe, k, ke, next) == AcFigures(c.acTbl, c.acK, z, limSe, k) + next
    decreases limSe + 1 - k, 1
  {
    hide CoefFigure, EndFigure, RunFrom, EobBin;
    if k <= ke {
      RunIs(c, z, limSe, k, ke, next);
      NotTheEnd(c, z, limSe, k);
    } else if k <= limSe {
      AtTheEnd(c, z, limSe, k);
    }
  }

  // The AC decisions of a block are those of its coefficients in turn.
  lemma AcDecisionsAre(c: Comp, z: seq<int>, limSe: nat, next: seq<Decision>)
    requires GoodComp(c) && GoodBlock(z, limSe)
    ensures AcDecisions(c, z, limSe, next) == AcFigures(c.acTbl, c.acK, z, limSe, 1) + next
  {
    EndsIs(c, z, limSe, 1, EobIndex(z, limSe), next);
  }

  // ---- MCUs ------------------------------------------------------------------------------------------------------

  // The blocks of an MCU come one after the other. Each is coded with the tables of its own
  // component, against the last DC value of that component and in its context, and leaves
  // its DC value and the category of its difference to the next.
  lemma McuDecisionsAre(s: Scan, p: Pred, mcu: seq<seq<int>>, n: nat, next: seq<Decision>)
    requires GoodScan(s) && GoodPred(s, p) && 0 < |mcu| <= |s.membership| && Codable(s, p, mcu)
    requires var d := mcu[0][0] - p.last[s.membership[|s.membership| - |mcu|]];
             d != 0 ==> BitsBelowTop(Abs(d) - 1, n)
    ensures var z, ci := mcu[0], s.membership[|s.membership| - |mcu|];
            var c, d := s.comps[ci], z[0] - p.last[ci];
            var ctx := if Abs(d) <= Pow2(c.dcL) / 2 then 0
                       else (if d > 0 then 4 else 8) + if Abs(d) > Pow2(c.dcU) then 8 else 0;
            var q := Pred(p.last[ci := z[0]], p.ctx[ci := ctx]);
            && GoodPred(s, q) && Codable(s, q, mcu[1..])
            && McuDecisions(s, p, mcu, next)
               == DcFigure(c.dcTbl, p.ctx[ci], d, n) + AcFigures(c.acTbl, c.acK, z, s.limSe, 1)
                  + McuDecisions(s, q, mcu[1..], next)
            && FinalPred(s, p, mcu) == FinalPred(s, q, mcu[1..])
  {
    hide DcDecisions, AcDecisions, NextCtx, DcFigure, AcFigures, Pow2;
    var z, ci := mcu[0], s.membership[|s.membership| - |mcu|];
    var c, d := s.comps[ci], z[0] - p.last[ci];
    NextCtxIs(c, d);
    var more := McuDecisions(s, NextPred(s, p, ci, z[0]), mcu[1..], next);
    AcDecisionsAre(c, z, s.limSe, more);
    DcDecisionsAre(c, p.ctx[ci], d, n, AcDecisions(c, z, s.limSe, more));
  }
}
