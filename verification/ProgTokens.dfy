// The symbols of progressive AC scans: bands of coefficients, runs of blocks without
// any more of them, and correction bits.
module ProgTokens {
  import opened Coefs
  import opened Bytes
  import opened BitString
  import opened HuffTokens
  import opened HuffBlock

  const MAX_EOBRUN := 0x7FFF
  const MAX_CORR_BITS := 1000
  const DCTSIZE2 := 64

  // ---- The point transform -----------------------------------------------------------------------------------------

  // For AC coefficients: division by 2^al, rounded towards zero.
  function Truncated(v: int, al: nat): int {
    var m: int := Shr(Abs(v), al);
    if v < 0 then -m else m
  }

  // For DC coefficients: an arithmetic shift to the right.
  function Floored(v: int, al: nat): int {
    v / Pow2(al)
  }

  function TruncatedBand(z: seq<int>, al: nat): (t: seq<int>)
    ensures |t| == |z| && forall k :: 0 <= k < |z| ==> t[k] == Truncated(z[k], al)
  {
    seq(|z|, k requires 0 <= k < |z| => Truncated(z[k], al))
  }

  predicate BandInRange(t: seq<int>) {
    forall k :: 0 <= k < |t| ==> AcInRange(t[k])
  }

  // ---- Runs of blocks ----------------------------------------------------------------------------------------------

  // A run of e blocks, section G.1.2.2 of ITU-T T.81: its order of magnitude, then the
  // bits below the leading one.
  function EobTokens(tbl: nat, e: nat): (toks: seq<Token>)
    requires tbl < NUM_HUFF_TBLS && e <= MAX_EOBRUN
    ensures TokensOk(toks)
  {
    if e == 0 then []
    else
      EobSize(e);
      var n := BitLen(e) - 1;
      if n == 0 then [Sym(false, tbl, 0)] else [Sym(false, tbl, 16 * n), Raw(e, n)]
  }

  lemma EobSize(e: nat)
    requires 0 < e <= MAX_EOBRUN
    ensures 1 <= BitLen(e) <= 15
  {
    Pow2Table();
    BitLenAtMost(e, 15);
    BitLenBounds(e);
  }

  // ---- First scan of a band ----------------------------------------------------------------------------------------

  predicate AllZero(t: seq<int>) {
    forall k :: 0 <= k < |t| ==> t[k] == 0
  }

  // The nonzero coefficients from k on, r zeros having gone before.
  function CoefTokens(tbl: nat, t: seq<int>, k: nat, r: nat): (toks: seq<Token>)
    requires tbl < NUM_HUFF_TBLS && BandInRange(t)
    ensures TokensOk(toks)
    decreases |t| - k
  {
    if k >= |t| then []
    else if t[k] == 0 then CoefTokens(tbl, t, k + 1, r + 1)
    else NonzeroTokens(tbl, r, t[k]) + CoefTokens(tbl, t, k + 1, 0)
  }

  // What one block adds when e blocks are waiting to be counted: the symbols, and
  // how many blocks are waiting afterwards.
  datatype FirstStep = FirstStep(toks: seq<Token>, run: nat)

  function StepFirst(tbl: nat, t: seq<int>, e: nat): (s: FirstStep)
    requires tbl < NUM_HUFF_TBLS && BandInRange(t) && t != [] && e < MAX_EOBRUN
    ensures TokensOk(s.toks) && s.run < MAX_EOBRUN
  {
    var body := if AllZero(t) then [] else EobTokens(tbl, e) + CoefTokens(tbl, t, 0, 0);
    var waiting := if AllZero(t) then e else 0;
    if t[|t| - 1] != 0 then FirstStep(body, waiting)
    else if waiting + 1 == MAX_EOBRUN then FirstStep(body + EobTokens(tbl, MAX_EOBRUN), 0)
    else FirstStep(body, waiting + 1)
  }

  predicate BandsInRange(ts: seq<seq<int>>, n: nat) {
    forall i :: 0 <= i < |ts| ==> |ts[i]| == n && BandInRange(ts[i])
  }

  // The blocks of an interval, from the point where e blocks are waiting.
  function ScanFirst(tbl: nat, ts: seq<seq<int>>, n: nat, e: nat): (toks: seq<Token>)
    requires tbl < NUM_HUFF_TBLS && n > 0 && BandsInRange(ts, n) && e < MAX_EOBRUN
    ensures TokensOk(toks)
  {
    if ts == [] then EobTokens(tbl, e)
    else
      var s := StepFirst(tbl, ts[0], e);
      s.toks + ScanFirst(tbl, ts[1..], n, s.run)
  }

  // ---- Refinement of a band ----------------------------------------------------------------------------------------

  // Magnitudes after the point transform, and signs. A magnitude above one was known
  // before; one is new.
  datatype Mag = Mag(abs: nat, neg: bool)

  function MagOf(v: int, al: nat): Mag {
    Mag(Shr(Abs(v), al), v < 0)
  }

  function MagBand(z: seq<int>, al: nat): (m: seq<Mag>)
    ensures |m| == |z| && forall k :: 0 <= k < |z| ==> m[k] == MagOf(z[k], al)
  {
    seq(|z|, k requires 0 <= k < |z| => MagOf(z[k], al))
  }

  // How far the new coefficients reach: one more than the place of the last of them.
  function NewEnd(m: seq<Mag>): (n: nat)
    ensures n <= |m|
    ensures n > 0 ==> m[n - 1].abs == 1
    ensures forall k :: n <= k < |m| ==> m[k].abs != 1
  {
    if m == [] then 0
    else if m[|m| - 1].abs == 1 then |m|
    else NewEnd(m[..|m| - 1])
  }

  function RawBits(b: seq<bool>): (toks: seq<Token>)
    ensures TokensOk(toks) && |toks| == |b| && forall i :: 0 <= i < |b| ==> toks[i] == Raw(Bit(b[i]), 1)
  {
    seq(|b|, i requires 0 <= i < |b| => Raw(Bit(b[i]), 1))
  }

  // The correction bits of the known coefficients from k on.
  function Corrections(m: seq<Mag>, k: nat): seq<bool>
    decreases |m| - k
  {
    if k >= |m| then []
    else if m[k].abs > 1 then [m[k].abs % 2 == 1] + Corrections(m, k + 1)
    else Corrections(m, k + 1)
  }

  // The symbols up to the last new coefficient, section G.1.2.3: r zeros and the
  // correction bits br have gone by since the last symbol.
  function RefineTokens(tbl: nat, m: seq<Mag>, k: nat, r: nat, br: seq<bool>): (toks: seq<Token>)
    requires tbl < NUM_HUFF_TBLS
    ensures TokensOk(toks)
    decreases |m| - k, r
  {
    if k >= NewEnd(m) then []
    else if m[k].abs == 0 then RefineTokens(tbl, m, k + 1, r + 1, br)
    else if r > 15 then [Sym(false, tbl, ZRL)] + RawBits(br) + RefineTokens(tbl, m, k, r - 16, [])
    else if m[k].abs > 1 then RefineTokens(tbl, m, k + 1, r, br + [m[k].abs % 2 == 1])
    else
      [Sym(false, tbl, 16 * r + 1), Raw(if m[k].neg then 0 else 1, 1)] + RawBits(br)
      + RefineTokens(tbl, m, k + 1, 0, [])
  }

  // A run of e blocks and the correction bits of all of them.
  function RunTokens(tbl: nat, e: nat, be: seq<bool>): (toks: seq<Token>)
    requires tbl < NUM_HUFF_TBLS && e <= MAX_EOBRUN
    ensures TokensOk(toks)
  {
    EobTokens(tbl, e) + RawBits(be)
  }

  datatype RefineStep = RefineStep(toks: seq<Token>, run: nat, bits: seq<bool>)

  // Another block would not be safe to wait for.
  predicate MustFlush(run: nat, bits: seq<bool>) {
    run == MAX_EOBRUN || |bits| > MAX_CORR_BITS - DCTSIZE2 + 1
  }

  function StepRefine(tbl: nat, m: seq<Mag>, e: nat, be: seq<bool>): (s: RefineStep)
    requires tbl < NUM_HUFF_TBLS && m != [] && e < MAX_EOBRUN && (e == 0 ==> be == [])
    ensures TokensOk(s.toks) && s.run < MAX_EOBRUN && (s.run == 0 ==> s.bits == [])
    ensures |be| <= MAX_CORR_BITS - DCTSIZE2 + 1 ==> |s.bits| <= MAX_CORR_BITS - DCTSIZE2 + 1
  {
    var any := NewEnd(m) > 0;
    var body := if any then RunTokens(tbl, e, be) + RefineTokens(tbl, m, 0, 0, []) else [];
    var run, bits := if any then 0 else e, if any then [] else be;
    if NewEnd(m) == |m| then RefineStep(body, run, bits)
    else
      var more := bits + Corrections(m, NewEnd(m));
      if MustFlush(run + 1, more) then RefineStep(body + RunTokens(tbl, run + 1, more), 0, [])
      else RefineStep(body, run + 1, more)
  }

  predicate BandsOf(ms: seq<seq<Mag>>, n: nat) {
    forall i :: 0 <= i < |ms| ==> |ms[i]| == n
  }

  function ScanRefine(tbl: nat, ms: seq<seq<Mag>>, n: nat, e: nat, be: seq<bool>): (toks: seq<Token>)
    requires tbl < NUM_HUFF_TBLS && n > 0 && BandsOf(ms, n) && e < MAX_EOBRUN && (e == 0 ==> be == [])
    ensures TokensOk(toks)
  {
    if ms == [] then RunTokens(tbl, e, be)
    else
      var s := StepRefine(tbl, ms[0], e, be);
      s.toks + ScanRefine(tbl, ms[1..], n, s.run, s.bits)
  }

  // No more correction bits can come from a block than it has coefficients.
  lemma {:induction false} CorrectionsFit(m: seq<Mag>, k: nat)
    requires k <= |m|
    ensures |Corrections(m, k)| <= |m| - k
    decreases |m| - k
  {
    if k < |m| { CorrectionsFit(m, k + 1); }
  }
}
