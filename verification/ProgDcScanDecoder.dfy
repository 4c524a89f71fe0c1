// Whole progressive DC scans of the decoder, interrupted any number of times.
module ProgDcScanDecoder {
  import opened MarkerSearch
  import opened Intervals
  import opened Coefs
  import opened Bytes
  import opened BitString
  import opened EntropySegment
  import opened HuffGen
  import opened HuffCode
  import opened HuffDerived
  import opened HuffBitWriter
  import opened HuffBitReader
  import opened HuffTokens
  import opened HuffBlock
  import opened HuffSegments
  import opened HuffSeqDecoder
  import opened ProgTokens
  import opened ProgAcFirstDecoder
  import opened ProgDc
  import opened ProgDcDecoder
  import opened ProgIntervals
  import opened ProgDcIntervals
  import opened D = ProgDecoder
  import PR = ProgRefine

  // ---- What a scan does to the DC coefficients of an MCU -----------------------------------------------------------

  predicate Received(s: DcScan, want: seq<Unit>, b: seq<int>, c: seq<int>) {
    && |b| == |c| == |want|
    && forall j :: 0 <= j < |want| ==>
         c[j] == if s.refine then SetBit(b[j], s.al, DcBit(want[j].dc, s.al))
             else Scaled(Floored(want[j].dc, s.al), s.al)
  }

  // An interrupted call leaves values that come to the same.
  predicate NoHarm(s: DcScan, want: seq<Unit>, b: seq<int>, u: seq<int>) {
    && |b| == |u| == |want|
    && (s.refine ==> forall j :: 0 <= j < |want| ==>
          SetBit(u[j], s.al, DcBit(want[j].dc, s.al)) == SetBit(b[j], s.al, DcBit(want[j].dc, s.al)))
  }

  lemma AfterHarmless(s: DcScan, want: seq<Unit>, b: seq<int>, u: seq<int>, c: seq<int>)
    requires NoHarm(s, want, b, u)
    ensures NoHarm(s, want, u, c) ==> NoHarm(s, want, b, c)
    ensures Received(s, want, u, c) ==> Received(s, want, b, c)
  {
    hide SetBit, DcBit, Scaled, Floored;
  }

  // ---- What is still to come ---------------------------------------------------------------------------------------

  ghost predicate CodesFor(s: DcScan, ts: seq<HuffTbl>, c: Tables) {
    GoodDcScan(s) && GoodTables(c) && (!s.refine ==> DcPaired(ts, c, s.tbls))
  }

  // The bits begin with the symbols of these MCUs.
  ghost predicate PieceThere(c: Tables, s: DcScan, last: seq<int>, mcus: seq<seq<Unit>>, bits: seq<bool>)
    requires GoodTables(c) && McusOf(s, mcus) && |last| == |s.tbls| && PieceFits(s, last, mcus)
  {
    TokensCoded(c, PieceTokens(s, last, mcus)) && BitsOf(c, PieceTokens(s, last, mcus)) <= bits
  }

  ghost predicate Follow(input: seq<byte>, f: Fetch, c: Tables, s: DcScan, num: nat, mcus: seq<seq<Unit>>)
    requires McusOf(s, mcus)
  {
    && f.Marker? && f.code == RST0 + num % 8 && GoodTables(c) && DcScanOk(s, mcus)
    && TokensCoded(c, TokensOfDc(s, mcus))
    && Holds(input, StartAt(f.next), c, DcSegs(s, mcus), num + 1)
  }

  ghost predicate Ahead(input: seq<byte>, st: BitState, c: Tables, s: DcScan, ts: seq<HuffTbl>, toGo: nat,
      last: seq<int>, num: nat,
                        mcus: seq<seq<Unit>>) {
    && CodesFor(s, ts, c) && McusOf(s, mcus) && |last| == |s.tbls| && D.Sound(input, st)
    && var now, later := Now(s.interval, toGo, mcus), Later(s.interval, toGo, mcus);
    && McusOf(s, now) && PieceFits(s, last, now) && PieceThere(c, s, last, now, Coming(input, st))
    && (later != [] ==> McusOf(s, later) && Follow(input, AheadOf(input, |input|, st), c, s, num, later))
  }

  lemma PaddedBegins(bits: seq<bool>, c: Tables, toks: seq<Token>)
    requires GoodTables(c) && TokensOk(toks) && Padded(bits, c, toks)
    ensures BitsOf(c, toks) <= bits
  {
    hide BitsOf, GoodTables, TokensOk;
  }

  lemma IntervalStarts(input: seq<byte>, st: BitState, c: Tables, s: DcScan, ts: seq<HuffTbl>, num: nat,
      mcus: seq<seq<Unit>>, pos: nat)
    requires CodesFor(s, ts, c) && McusOf(s, mcus) && DcScanOk(s, mcus) && TokensCoded(c, TokensOfDc(s, mcus))
    requires Holds(input, StartAt(pos), c, DcSegs(s, mcus), num)
    requires GoodState(st, |input|) && st.pos == pos && st.bitsLeft == 0 && st.marker == 0 && !st.insufficient
    ensures Ahead(input, st, c, s, ts, s.interval, ZeroLast(s), num, mcus)
  {
    hide PieceTokens, PieceFits, TokensCoded, GoodTables, TokenOk, Padded, ByteBits, MarkerAfter, AllOf, Segment,
        GoodUnits, BitsOf, DcPaired;
    assert Coming(input, st) == Coming(input, StartAt(pos))
        && AheadOf(input, |input|, st) == AheadOf(input, |input|, StartAt(pos));
    McuParts(s, s.interval, mcus);
    var now, later, segs := Now(s.interval, s.interval, mcus), Later(s.interval, s.interval, mcus), DcSegs(s, mcus);
    var first := PieceTokens(s, ZeroLast(s), now);
    assert [] + first == first == segs[0];
    AllOfCons(segs[0], segs[1..]);
    assert segs == [segs[0]] + segs[1..];
    PaddedBegins(Coming(input, st), c, first);
    if later != [] {
      assert segs[1..] == DcSegs(s, later);
      SplitCoded(c, first, TokensOfDc(s, later));
      assert StartAt(AheadOf(input, |input|, st).next) == BitState(AheadOf(input, |input|, st).next, 0, 0, 0, false);
    } else {
      assert segs[1..] == [];
      NoSegments();
      assert first + [] == first;
    }
  }

  predicate Moved(input: seq<byte>, st: BitState, st': BitState, rest: seq<bool>) {
    D.Sound(input, st') && Coming(input, st') == rest && AheadOf(input, |input|, st') == AheadOf(input, |input|, st)
  }

  // The symbols of the next MCU, and what comes after them.
  lemma McuAhead(input: seq<byte>, st: BitState, c: Tables, s: DcScan, ts: seq<HuffTbl>, toGo: nat, last: seq<int>,
      num: nat, mcus: seq<seq<Unit>>)
    returns (rest: seq<bool>)
    requires Ahead(input, st, c, s, ts, toGo, last, num, mcus) && mcus != [] && !IsDue(s.interval, toGo)
    ensures CodesFor(s, ts, c) && GoodUnits(s.tbls, mcus[0]) && |last| == |s.tbls| && McuFits(s, last, mcus[0])
        && D.Sound(input, st)
    ensures TokensCoded(c, McuTokens(s, last, mcus[0]))
        && Coming(input, st) == BitsOf(c, McuTokens(s, last, mcus[0])) + rest
    ensures forall st': BitState :: Moved(input, st, st', rest)
              ==> Ahead(input, st', c, s, ts, ToGoNext(s.interval, toGo), LastAfter(s, last, mcus[0]), num, mcus[1..])
  {
    hide GoodTables, Coming, AheadOf, D.Sound, Follow, McuFits, McuTokens, LastAfter, PieceFits, PieceTokens, BitsOf,
        TokensCoded, DcPaired, GoodUnits,
      Now, Later;
    NextMcu(s.interval, toGo, mcus);
    McuParts(s, toGo, mcus);
    var now := Now(s.interval, toGo, mcus);
    PieceStep(s, last, now);
    assert McusOf(s, mcus[1..]);
    var toks, more, bits := McuTokens(s, last, mcus[0]), PieceTokens(s, LastAfter(s, last, mcus[0]), now[1..]),
        Coming(input, st);
    SplitCoded(c, toks, more);
    BitsOfConcat(c, toks, more);
    rest := bits[|BitsOf(c, toks)|..];
    assert bits == BitsOf(c, toks) + rest;
    assert BitsOf(c, more) <= rest;
  }

  // ---- One MCU -----------------------------------------------------------------------------------------------------

  lemma McuReads(ts: seq<HuffTbl>, c: Tables, s: DcScan, last: seq<int>, units: seq<Unit>, rest: seq<bool>)
    requires CodesFor(s, ts, c) && !s.refine && GoodUnits(s.tbls, units) && |last| == |s.tbls|
        && McuFits(s, last, units)
    requires TokensCoded(c, McuTokens(s, last, units))
    ensures |ts| == |s.tbls| && (forall i :: 0 <= i < |ts| ==> WellFormed(ts[i]))
        && (forall i :: 0 <= i < |CisOf(units)| ==> CisOf(units)[i] < |ts|)
    ensures ReadDcs(ts, BitsOf(c, McuTokens(s, last, units)) + rest, CisOf(units), last)
            == Some(Parsed(DcValues(ValuesOf(units, s.al), LastAfter(s, last, units)), rest))
  {
    hide Paired, GoodTables, BitsOf, ReadDcs, DcScanTokens, DcFits, WellFormed, TokensCoded, LastDc;
    DcsRead(ts, c, s.tbls, last, units, s.al, rest);
  }

  method FirstMcu(dec: D.ProgDecoder, br: BitReader, ds: seq<DTbl>, cis: seq<nat>, dcs: array<int>, s: DcScan,
                  ghost c: Tables, ghost num: nat, ghost mcus: seq<seq<Unit>>)
    returns (ok: bool, last: seq<int>)
    requires br.Valid() && br.input == dec.input && br.State() == dec.state && DcDecoders(ds)
    requires Ahead(dec.input, dec.state, c, s, TablesBehind(ds), dec.restartsToGo, dec.lastDc, num, mcus)
    requires mcus != [] && !IsDue(s.interval, dec.restartsToGo) && !s.refine && cis == CisOf(mcus[0])
        && dcs.Length == |mcus[0]|
    modifies br, dcs
    ensures br.Valid() && (br.avail == |br.input| ==> ok)
    ensures ok ==>
        Ahead(dec.input, br.State(), c, s, TablesBehind(ds), ToGoNext(s.interval, dec.restartsToGo), last, num,
        mcus[1..])
                   && Received(s, mcus[0], old(dcs[..]), dcs[..])
    ensures !ok ==> NoHarm(s, mcus[0], old(dcs[..]), dcs[..])
  {
    hide DecodesWith, DcTable, Coming, AheadOf, GoodState, ReadDcs, ToJcoef, Ahead, CodesFor, McuFits, McuTokens,
        LastAfter, BitsOf, TokensCoded, WellFormed,
      Floored, Scaled;
    ghost var ts := TablesBehind(ds);
    ghost var rest := McuAhead(dec.input, dec.state, c, s, ts, dec.restartsToGo, dec.lastDc, num, mcus);
    McuReads(ts, c, s, dec.lastDc, mcus[0], rest);
    ok, last := DecodeDcFirst(br, ds, cis, dec.lastDc, dcs, s.al);
  }

  lemma RefineReads(c: Tables, s: DcScan, last: seq<int>, units: seq<Unit>, bits: seq<bool>, rest: seq<bool>)
    requires GoodDcScan(s) && GoodTables(c) && s.refine && GoodUnits(s.tbls, units) && |last| == |s.tbls|
        && McuFits(s, last, units)
    requires bits == BitsOf(c, McuTokens(s, last, units)) + rest
    ensures |bits| >= |units| && bits[|units|..] == rest
        && forall j :: 0 <= j < |units| ==> bits[j] == DcBit(units[j].dc, s.al)
  {
    hide GoodTables, BitsOf, DcBit;
    PR.RawBitsRead(c, DcBits(units, s.al));
  }

  method RefineMcu(dec: D.ProgDecoder, br: BitReader, dcs: array<int>, s: DcScan, ghost ts: seq<HuffTbl>,
      ghost c: Tables, ghost num: nat,
                   ghost mcus: seq<seq<Unit>>)
    returns (ok: bool)
    requires br.Valid() && br.input == dec.input && br.State() == dec.state
    requires Ahead(dec.input, dec.state, c, s, ts, dec.restartsToGo, dec.lastDc, num, mcus)
    requires mcus != [] && !IsDue(s.interval, dec.restartsToGo) && s.refine && dcs.Length == |mcus[0]|
    modifies br, dcs
    ensures br.Valid() && (br.avail == |br.input| ==> ok)
    ensures ok ==>
        Ahead(dec.input, br.State(), c, s, ts, ToGoNext(s.interval, dec.restartsToGo), dec.lastDc, num, mcus[1..])
                   && Received(s, mcus[0], old(dcs[..]), dcs[..])
    ensures !ok ==> NoHarm(s, mcus[0], old(dcs[..]), dcs[..])
  {
    hide Coming, AheadOf, GoodState, Ahead, McuFits, McuTokens, BitsOf, TokensCoded, SetBit, DcBit, DcPaired,
        GoodTables;
    ghost var rest := McuAhead(dec.input, dec.state, c, s, ts, dec.restartsToGo, dec.lastDc, num, mcus);
    RefineReads(c, s, dec.lastDc, mcus[0], br.Rest(), rest);
    ok := DecodeDcRefine(br, dcs, s.al);
    if ok { assert Moved(dec.input, dec.state, br.State(), rest); }
  }

  // A restart is due, and the source has to wait for its marker.
  lemma StillDue(input: seq<byte>, st: BitState, st': BitState, c: Tables, s: DcScan, ts: seq<HuffTbl>, toGo: nat,
      last: seq<int>, num: nat,
                 mcus: seq<seq<Unit>>)
    requires Ahead(input, st, c, s, ts, toGo, last, num, mcus) && IsDue(s.interval, toGo)
    requires GoodState(st', |input|) && !st'.insufficient && AheadOf(input, |input|, st') == AheadOf(input, |input|, st)
    ensures Ahead(input, st', c, s, ts, toGo, last, num, mcus)
  {
    hide Coming, AheadOf, Follow, GoodTables, DcPaired;
    DueMeans(s.interval, toGo, mcus);
    PieceEnd(s, last);
  }

  lemma RestartIsNext(input: seq<byte>, st: BitState, c: Tables, s: DcScan, ts: seq<HuffTbl>, toGo: nat, last: seq<int>,
      num: nat, mcus: seq<seq<Unit>>)
    requires Ahead(input, st, c, s, ts, toGo, last, num, mcus) && IsDue(s.interval, toGo) && mcus != []
    ensures var f := AheadOf(input, |input|, st);
            && f.Marker? && f.code == RST0 + num % 8
            && forall st': BitState ::
                GoodState(st', |input|) && st'.pos == f.next && st'.bitsLeft == 0 && st'.marker == 0
                && !st'.insufficient ==>
                Ahead(input, st', c, s, ts, s.interval, ZeroLast(s), num + 1, mcus)
  {
    hide CodesFor, Coming, AheadOf, DcSegs, TokensOfDc, PieceThere, PieceFits, Holds, GoodState, TokensCoded, GoodUnits;
    DueMeans(s.interval, toGo, mcus);
    var f := AheadOf(input, |input|, st);
    forall st': BitState | GoodState(st', |input|) && st'.pos == f.next && st'.bitsLeft == 0 && st'.marker == 0
        && !st'.insufficient
      ensures Ahead(input, st', c, s, ts, s.interval, ZeroLast(s), num + 1, mcus)
    {
      IntervalStarts(input, st', c, s, ts, num + 1, mcus, f.next);
    }
  }

  lemma AheadMeans(input: seq<byte>, st: BitState, c: Tables, s: DcScan, ts: seq<HuffTbl>, toGo: nat, last: seq<int>,
      num: nat, mcus: seq<seq<Unit>>)
    requires Ahead(input, st, c, s, ts, toGo, last, num, mcus)
    ensures GoodDcScan(s) && McusOf(s, mcus) && GoodState(st, |input|) && !st.insufficient
        && AheadOf(input, |input|, st).Marker?
    ensures |last| == |s.tbls|
  {
    hide Coming, AheadOf, Follow, PieceThere, GoodUnits, GoodTables, DcPaired;
  }

  // decode_mcu_DC_first and decode_mcu_DC_refine: dcs are the DC coefficients of the
  // blocks, cis the components they belong to. The call can be repeated when the source
  // had to wait.
  method DecodeMcu(dec: D.ProgDecoder, avail: nat, ds: seq<DTbl>, cis: seq<nat>, dcs: array<int>, s: DcScan,
                   ghost c: Tables, ghost num0: nat, ghost mcus: seq<seq<Unit>>)
    returns (ok: bool, ghost num: nat)
    requires dec.Valid() && avail <= |dec.input| && dec.interval == s.interval && DcDecoders(ds)
    requires Ahead(dec.input, dec.state, c, s, TablesBehind(ds), dec.restartsToGo, dec.lastDc, num0, mcus)
        && num0 % 8 == dec.nextRestartNum
    requires mcus != [] && cis == CisOf(mcus[0]) && dcs.Length == |mcus[0]|
    modifies dec, dcs
    ensures dec.Valid() && num % 8 == dec.nextRestartNum && (avail == |dec.input| ==> ok)
    ensures ok ==> Ahead(dec.input, dec.state, c, s, TablesBehind(ds), dec.restartsToGo, dec.lastDc, num, mcus[1..])
                   && Received(s, mcus[0], old(dcs[..]), dcs[..])
    ensures !ok ==> Ahead(dec.input, dec.state, c, s, TablesBehind(ds), dec.restartsToGo, dec.lastDc, num, mcus)
                    && NoHarm(s, mcus[0], old(dcs[..]), dcs[..])
  {
    hide DecodesWith, DcTable, Ahead, Received, AheadOf, GoodState, DcDecoders, SetBit, DcBit;
    ghost var ts := TablesBehind(ds);
    num := num0;
    AheadMeans(dec.input, dec.state, c, s, ts, dec.restartsToGo, dec.lastDc, num, mcus);
    if dec.interval != 0 && dec.restartsToGo == 0 {
      ghost var st := dec.state;
      RestartIsNext(dec.input, st, c, s, ts, dec.restartsToGo, dec.lastDc, num, mcus);
      var r := dec.ProcessRestart(avail);
      if r != Restarted {
        StillDue(dec.input, st, dec.state, c, s, ts, dec.restartsToGo, dec.lastDc, num, mcus);
        return false, num;
      }
      num := num + 1;
      assert dec.lastDc == ZeroLast(s);
      AheadMeans(dec.input, dec.state, c, s, ts, dec.restartsToGo, dec.lastDc, num, mcus);
    }
    if s.refine || !dec.state.insufficient {
      var br := new BitReader(dec.input, avail, dec.state);
      var last := dec.lastDc;
      if s.refine {
        ok := RefineMcu(dec, br, dcs, s, ts, c, num, mcus);
      } else {
        ok, last := FirstMcu(dec, br, ds, cis, dcs, s, c, num, mcus);
      }
      if !ok {
        return;
      }
      dec.state := br.State();
      dec.lastDc := last;
    }
    if dec.interval != 0 {
      dec.restartsToGo := dec.restartsToGo - 1;
    }
    ok := true;
    AheadMeans(dec.input, dec.state, c, s, ts, dec.restartsToGo, dec.lastDc, num, mcus[1..]);
  }

  method ReceiveMcu(dec: D.ProgDecoder, arrivals: seq<nat>, ds: seq<DTbl>, cis: seq<nat>, b: seq<int>, s: DcScan,
                    ghost c: Tables, ghost num0: nat, ghost mcus: seq<seq<Unit>>)
    returns (got: seq<int>, ghost num: nat)
    requires dec.Valid() && dec.interval == s.interval && DcDecoders(ds)
    requires Ahead(dec.input, dec.state, c, s, TablesBehind(ds), dec.restartsToGo, dec.lastDc, num0, mcus)
        && num0 % 8 == dec.nextRestartNum
    requires mcus != [] && cis == CisOf(mcus[0]) && |b| == |mcus[0]|
    modifies dec
    ensures dec.Valid() && num % 8 == dec.nextRestartNum
    ensures Ahead(dec.input, dec.state, c, s, TablesBehind(ds), dec.restartsToGo, dec.lastDc, num, mcus[1..])
        && Received(s, mcus[0], b, got)
  {
    hide DecodesWith, DcTable, Ahead, Received, AheadOf, GoodState, DcDecoders, SetBit, DcBit, TablesBehind;
    var dcs := new int[|b|](i requires 0 <= i < |b| => b[i]);
    assert dcs[..] == b;
    num := num0;
    var ok;
    for i := 0 to |arrivals|
      invariant fresh(dcs) && dcs.Length == |b| && NoHarm(s, mcus[0], b, dcs[..])
      invariant dec.Valid() && num % 8 == dec.nextRestartNum
      invariant Ahead(dec.input, dec.state, c, s, TablesBehind(ds), dec.restartsToGo, dec.lastDc, num, mcus)
    {
      ghost var before := dcs[..];
      ok, num := DecodeMcu(dec, Arrived(dec.input, arrivals[i]), ds, cis, dcs, s, c, num, mcus);
      AfterHarmless(s, mcus[0], b, before, dcs[..]);
      if ok {
        return dcs[..], num;
      }
    }
    ghost var before := dcs[..];
    ok, num := DecodeMcu(dec, |dec.input|, ds, cis, dcs, s, c, num, mcus);
    AfterHarmless(s, mcus[0], b, before, dcs[..]);
    got := dcs[..];
  }

  // ---- The whole scan ----------------------------------------------------------------------------------------------

  predicate AllReceived(s: DcScan, mcus: seq<seq<Unit>>, had: seq<seq<int>>, got: seq<seq<int>>, n: nat) {
    n <= |mcus| && n <= |had| && |got| == n && forall i :: 0 <= i < n ==> Received(s, mcus[i], had[i], got[i])
  }

  method DecodeDcScan(dec: D.ProgDecoder, waits: seq<seq<nat>>, ds: seq<DTbl>, cis: seq<seq<nat>>, had: seq<seq<int>>,
      s: DcScan,
                      ghost c: Tables, ghost mcus: seq<seq<Unit>>)
    returns (got: seq<seq<int>>)
    requires dec.Valid() && dec.interval == s.interval && DcDecoders(ds) && dec.nextRestartNum == 0
    requires Ahead(dec.input, dec.state, c, s, TablesBehind(ds), dec.restartsToGo, dec.lastDc, 0, mcus)
    requires |waits| == |cis| == |had| == |mcus|
        && forall i :: 0 <= i < |cis| ==> cis[i] == CisOf(mcus[i]) && |had[i]| == |mcus[i]|
    modifies dec
    ensures AllReceived(s, mcus, had, got, |mcus|)
  {
    hide DecodesWith, DcTable, Ahead, Received, GoodState, CisOf, DcDecoders, TablesBehind;
    ghost var now, num := mcus, 0;
    got := [];
    for i := 0 to |cis|
      invariant dec.Valid() && num % 8 == dec.nextRestartNum && now == mcus[i..]
      invariant Ahead(dec.input, dec.state, c, s, TablesBehind(ds), dec.restartsToGo, dec.lastDc, num, now)
      invariant AllReceived(s, mcus, had, got, i)
    {
      assert now[0] == mcus[i];
      var one;
      one, num := ReceiveMcu(dec, waits[i], ds, cis[i], had[i], s, c, num, now);
      got := got + [one];
      now := now[1..];
    }
  }
}
