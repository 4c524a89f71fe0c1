// Whole progressive AC scans of the decoder. A call that runs out of data is repeated
// when more has arrived, however often that happens and at whatever byte.
module ProgScanDecoder {
  import opened MarkerSearch
  import opened Intervals
  import opened Bytes
  import opened BitString
  import opened EntropySegment
  import opened ZigzagOrder
  import opened HuffCode
  import opened HuffGen
  import opened HuffDerived
  import opened HuffBitWriter
  import opened HuffBitReader
  import opened HuffTokens
  import opened HuffBlock
  import opened HuffSegments
  import opened ProgTokens
  import opened ProgRead
  import opened ProgBlocks
  import opened ProgIntervals
  import opened ProgAcIntervals
  import opened ProgAcFirstDecoder
  import opened ProgAcRefineDecoder
  import opened D = ProgDecoder
  import P = ProgEncoder
  import PR = ProgRefine

  // ---- What a scan does to a block ---------------------------------------------------------------------------------

  // The block b as it has to be before the scan brings it closer to want.
  predicate Ready(s: AcScan, want: seq<int>, b: seq<int>)
    requires GoodAcScan(s) && |want| == 64
  {
    |b| == 64 && (s.refine ==> JcoefBlock(b) && KnownIn(PlacesOf(s.order, s.ss, s.se), b) == PR.Known(MagsOf(s, want)))
  }

  // The block c that the scan makes of b.
  predicate Received(s: AcScan, want: seq<int>, b: seq<int>, c: seq<int>)
    requires GoodAcScan(s) && |want| == 64
  {
    if s.refine then
      var evs, place := PR.ChangesIn(MagsOf(s, want), 0, Width(s)), PlacesOf(s.order, s.ss, s.se);
      |b| == 64 && GoodPlaces(place) && InBand(evs, |place|) && c == Changed(place, s.al, b, evs)
    else
      var found := FoundIn(CoefsOf(s, want), 0);
      |b| == 64 && Reach(found, |s.order| - s.ss) && c == Placed(s.order[s.ss..], s.al, b, found)
  }

  // An interrupted call leaves a block that comes to the same.
  ghost predicate NoHarm(s: AcScan, want: seq<int>, b: seq<int>, u: seq<int>)
    requires GoodAcScan(s) && |want| == 64
  {
    Ready(s, want, u) && forall c :: Received(s, want, u, c) ==> Received(s, want, b, c)
  }

  // ---- What is still to come ---------------------------------------------------------------------------------------

  // The bits read as the bands of the blocks, run of them being known to be empty.
  ghost predicate ReadsPiece(s: AcScan, t: HuffTbl, bits: seq<bool>, run: nat, blocks: seq<seq<int>>)
    requires GoodAcScan(s) && Blocks(blocks) && WellFormed(t)
  {
    exists tail :: ReadsUpTo(s, t, bits, run, blocks, tail)
  }

  predicate ReadsUpTo(s: AcScan, t: HuffTbl, bits: seq<bool>, run: nat, blocks: seq<seq<int>>, tail: seq<bool>)
    requires GoodAcScan(s) && Blocks(blocks) && WellFormed(t)
  {
    if s.refine then PR.ReadsRefine(t, bits, run, RefineBands(s, blocks), tail)
    else ReadsFirst(t, bits, run, FirstBands(s, blocks), Width(s), tail)
  }

  // The marker f is the restart marker in front of the intervals of these blocks.
  ghost predicate Follow(input: seq<byte>, f: Fetch, c: Tables, s: AcScan, num: nat, blocks: seq<seq<int>>)
    requires GoodAcScan(s) && Blocks(blocks) && AcFits(s, blocks)
  {
    && f.Marker? && f.code == RST0 + num % 8 && GoodTables(c) && TokensCoded(c, AcScanTokens(s, blocks))
    && Holds(input, StartAt(f.next), c, AcSegs(s, blocks), num + 1)
  }

  ghost predicate CodesFor(s: AcScan, t: HuffTbl, c: Tables) {
    GoodAcScan(s) && WellFormed(t) && GoodTables(c) && Paired(t, TableOf(c, false, s.tbl))
  }

  // Between two MCUs the input holds the symbols of the blocks that are left.
  ghost predicate Ahead(input: seq<byte>, st: BitState, c: Tables, s: AcScan, t: HuffTbl, toGo: nat, run: nat, num: nat,
      blocks: seq<seq<int>>) {
    && CodesFor(s, t, c) && Blocks(blocks) && AcFits(s, blocks) && D.Sound(input, st)
    && var now, later := Now(s.interval, toGo, blocks), Later(s.interval, toGo, blocks);
    && Blocks(now) && ReadsPiece(s, t, Coming(input, st), run, now)
    && (later != [] ==>
        Blocks(later) && AcFits(s, later) && Follow(input, AheadOf(input, |input|, st), c, s, num, later))
  }

  lemma NothingAhead(c: Tables, tbl: nat, s: seq<bool>, run: nat, rest: seq<bool>)
    requires GoodTables(c) && tbl < NUM_HUFF_TBLS
    ensures RunAhead(c, tbl, s, 0, run, rest) ==> run == 0 && rest == s
    ensures PR.RunAhead(c, tbl, s, 0, [], run, rest) ==> run == 0 && rest == s
  {
    assert [] + rest == rest;
  }

  // The symbols of an interval read as its bands.
  lemma PieceRead(s: AcScan, t: HuffTbl, c: Tables, blocks: seq<seq<int>>, bits: seq<bool>)
    requires CodesFor(s, t, c) && Blocks(blocks) && AcFits(s, blocks)
    requires TokensCoded(c, PieceTokens(s, blocks, 0, [])) && Padded(bits, c, PieceTokens(s, blocks, 0, []))
    ensures ReadsPiece(s, t, bits, 0, blocks)
  {
    hide GoodAcScan, Paired, GoodTables, ScanFirst, ScanRefine, TokensCoded, BitsOf, ReadsFirst, PR.ReadsRefine,
        WellFormed, CoefsOf, MagsOf, AcFits;
    TableInRange(s);
    var n: nat :| n < 8 && bits == BitsOf(c, PieceTokens(s, blocks, 0, [])) + Ones(n);
    var tail := Ones(n);
    if s.refine {
      var run, rest := PR.IntervalRead(t, c, s.tbl, RefineBands(s, blocks), Width(s), 0, [], tail);
      NothingAhead(c, s.tbl, bits, run, rest);
      assert ReadsUpTo(s, t, bits, 0, blocks, tail);
    } else {
      FitsBands(s, blocks);
      var run, rest := IntervalRead(t, c, s.tbl, FirstBands(s, blocks), Width(s), 0, tail);
      NothingAhead(c, s.tbl, bits, run, rest);
      assert ReadsUpTo(s, t, bits, 0, blocks, tail);
    }
  }

  // The beginning of an interval.
  lemma IntervalStarts(input: seq<byte>, st: BitState, c: Tables, s: AcScan, t: HuffTbl, num: nat,
      blocks: seq<seq<int>>, pos: nat)
    requires CodesFor(s, t, c) && Blocks(blocks) && AcFits(s, blocks) && TokensCoded(c, AcScanTokens(s, blocks))
    requires Holds(input, StartAt(pos), c, AcSegs(s, blocks), num)
    requires GoodState(st, |input|) && st.pos == pos && st.bitsLeft == 0 && st.marker == 0 && !st.insufficient
    ensures Ahead(input, st, c, s, t, s.interval, 0, num, blocks)
  {
    hide CodesFor, PieceTokens, AcFits, TokensCoded, GoodTables, TokenOk, Padded, ByteBits, MarkerAfter, ReadsPiece,
        AllOf, Segment;
    StartIsGood(s, t, c);
    assert Coming(input, st) == Coming(input, StartAt(pos))
        && AheadOf(input, |input|, st) == AheadOf(input, |input|, StartAt(pos));
    FitsParts(s, s.interval, blocks);
    var now, later, segs := Now(s.interval, s.interval, blocks), Later(s.interval, s.interval, blocks),
        AcSegs(s, blocks);
    var first := PieceTokens(s, now, 0, []);
    assert [] + first == first == segs[0];
    AllOfCons(segs[0], segs[1..]);
    assert segs == [segs[0]] + segs[1..];
    if later != [] {
      assert segs[1..] == AcSegs(s, later);
      SegsOk(s, s.interval, 0, [], [], later);
      SplitCoded(c, first, AcScanTokens(s, later));
      assert StartAt(AheadOf(input, |input|, st).next) == BitState(AheadOf(input, |input|, st).next, 0, 0, 0, false);
    } else {
      assert segs[1..] == [];
      NoSegments();
      assert first + [] == first;
    }
    PieceRead(s, t, c, now, Coming(input, st));
  }

  lemma StartIsGood(s: AcScan, t: HuffTbl, c: Tables)
    requires CodesFor(s, t, c)
    ensures GoodAcScan(s) && WellFormed(t) && GoodTables(c)
  {
  }

  // The reader has moved on to where rest is to come, in the same interval.
  predicate Moved(input: seq<byte>, st: BitState, st': BitState, rest: seq<bool>) {
    D.Sound(input, st') && Coming(input, st') == rest && AheadOf(input, |input|, st') == AheadOf(input, |input|, st)
  }

  lemma FirstAhead(input: seq<byte>, st: BitState, c: Tables, s: AcScan, t: HuffTbl, toGo: nat, run: nat, num: nat,
      blocks: seq<seq<int>>)
    requires Ahead(input, st, c, s, t, toGo, run, num, blocks) && blocks != [] && !IsDue(s.interval, toGo) && !s.refine
    ensures |blocks[0]| == 64 && GoodAcScan(s) && WellFormed(t) && D.Sound(input, st)
    ensures var p := ReadFirst(t, Coming(input, st), Width(s), run);
            && p.Some? && p.value.value.found == FoundIn(CoefsOf(s, blocks[0]), 0)
            && forall st': BitState :: Moved(input, st, st', p.value.rest)
                 ==> Ahead(input, st', c, s, t, ToGoNext(s.interval, toGo), p.value.value.run, num, blocks[1..])
  {
    hide GoodAcScan, Paired, GoodTables, WellFormed, CoefsOf, Coming, AheadOf, D.Sound, Follow, ReadFirst, FoundIn,
        AcFits, BlockFits, Now, Later;
    NextMcu(s.interval, toGo, blocks);
    OneFits(s, blocks);
    var now := Now(s.interval, toGo, blocks);
    var tail :| ReadsUpTo(s, t, Coming(input, st), run, now, tail);
    assert FirstBands(s, now)[1..] == FirstBands(s, now[1..]);
    assert FirstBands(s, now)[0] == CoefsOf(s, blocks[0]);
    var p := ReadFirst(t, Coming(input, st), Width(s), run);
    assert ReadsUpTo(s, t, p.value.rest, p.value.value.run, now[1..], tail);
  }

  lemma RefineAhead(input: seq<byte>, st: BitState, c: Tables, s: AcScan, t: HuffTbl, toGo: nat, run: nat, num: nat,
      blocks: seq<seq<int>>)
    requires Ahead(input, st, c, s, t, toGo, run, num, blocks) && blocks != [] && !IsDue(s.interval, toGo) && s.refine
    ensures |blocks[0]| == 64 && GoodAcScan(s) && WellFormed(t) && D.Sound(input, st)
    ensures var p := PR.ReadRefine(t, Coming(input, st), PR.Known(MagsOf(s, blocks[0])), run);
            && p.Some? && p.value.value.evs == PR.ChangesIn(MagsOf(s, blocks[0]), 0, Width(s))
            && forall st': BitState :: Moved(input, st, st', p.value.rest)
                 ==> Ahead(input, st', c, s, t, ToGoNext(s.interval, toGo), p.value.value.run, num, blocks[1..])
  {
    hide GoodAcScan, Paired, GoodTables, WellFormed, MagsOf, Coming, AheadOf, D.Sound, Follow, PR.ReadRefine,
        PR.ChangesIn, AcFits, BlockFits, Now, Later;
    NextMcu(s.interval, toGo, blocks);
    OneFits(s, blocks);
    var now := Now(s.interval, toGo, blocks);
    var tail :| ReadsUpTo(s, t, Coming(input, st), run, now, tail);
    assert RefineBands(s, now)[1..] == RefineBands(s, now[1..]);
    assert RefineBands(s, now)[0] == MagsOf(s, blocks[0]);
    var p := PR.ReadRefine(t, Coming(input, st), PR.Known(MagsOf(s, blocks[0])), run);
    assert ReadsUpTo(s, t, p.value.rest, p.value.value.run, now[1..], tail);
  }

  // ---- One block ---------------------------------------------------------------------------------------------------

  method FirstBlock(dec: D.ProgDecoder, br: BitReader, d: DTbl, block: array<int>, s: AcScan, ghost c: Tables,
      ghost num: nat, ghost blocks: seq<seq<int>>)
    returns (ok: bool, run: nat)
    requires br.Valid() && br.input == dec.input && br.State() == dec.state && DecodesWith(d.pub, d)
        && block.Length == 64
    requires Ahead(dec.input, dec.state, c, s, d.pub, dec.restartsToGo, dec.eobrun, num, blocks)
    requires blocks != [] && |blocks[0]| == 64 && !IsDue(s.interval, dec.restartsToGo) && !s.refine && GoodAcScan(s)
        && Ready(s, blocks[0], block[..])
    modifies br, block
    ensures br.Valid() && (br.avail == |br.input| ==> ok)
    ensures ok ==>
        Ahead(dec.input, br.State(), c, s, d.pub, ToGoNext(s.interval, dec.restartsToGo), run, num, blocks[1..])
                   && Received(s, blocks[0], old(block[..]), block[..])
    ensures !ok ==> NoHarm(s, blocks[0], old(block[..]), block[..])
  {
    hide DecodesWith, WellFormed, Coming, AheadOf, GoodState, ReadBand, Placed, PartlyPlaced, Ahead, CoefsOf, FoundIn,
        GoodRefineBand, ScanOrder;
    FirstAhead(dec.input, dec.state, c, s, d.pub, dec.restartsToGo, dec.eobrun, num, blocks);
    ghost var b := block[..];
    ok, run := DecodeAcFirst(br, d, block, s.order, s.ss, s.se, s.al, dec.eobrun);
    if !ok { StillSame(s, blocks[0], b, block[..]); }
  }

  lemma StillSame(s: AcScan, want: seq<int>, b: seq<int>, u: seq<int>)
    requires GoodAcScan(s) && !s.refine && |want| == 64
        && PartlyPlaced(s.order[s.ss..], s.al, b, FoundIn(CoefsOf(s, want), 0), u)
    ensures NoHarm(s, want, b, u)
  {
    hide Placed, FoundIn, CoefsOf, GoodRefineBand, ScanOrder;
    PlacedAgain(s.order[s.ss..], s.al, b, FoundIn(CoefsOf(s, want), 0), u);
  }

  method RefineBlock(dec: D.ProgDecoder, br: BitReader, d: DTbl, block: array<int>, s: AcScan, ghost c: Tables,
      ghost num: nat, ghost blocks: seq<seq<int>>)
    returns (ok: bool, run: nat)
    requires br.Valid() && br.input == dec.input && br.State() == dec.state && DecodesWith(d.pub, d)
        && block.Length == 64
    requires Ahead(dec.input, dec.state, c, s, d.pub, dec.restartsToGo, dec.eobrun, num, blocks)
    requires blocks != [] && |blocks[0]| == 64 && !IsDue(s.interval, dec.restartsToGo) && s.refine && GoodAcScan(s)
        && Ready(s, blocks[0], block[..])
    modifies br, block
    ensures br.Valid() && (br.avail == |br.input| ==> ok)
    ensures ok ==>
        Ahead(dec.input, br.State(), c, s, d.pub, ToGoNext(s.interval, dec.restartsToGo), run, num, blocks[1..])
                   && Received(s, blocks[0], old(block[..]), block[..])
    ensures !ok ==> NoHarm(s, blocks[0], old(block[..]), block[..])
  {
    hide DecodesWith, WellFormed, Coming, AheadOf, GoodState, Changed, SameOutcome, Ahead, MagsOf, PR.ReadRefine,
        PR.ChangesIn, PR.Known, JcoefBlock, ScanOrder,
      KnownIn;
    RefineAhead(dec.input, dec.state, c, s, d.pub, dec.restartsToGo, dec.eobrun, num, blocks);
    ghost var b := block[..];
    ok, run := DecodeAcRefine(br, d, block, s.order, s.ss, s.se, s.al, dec.eobrun);
    if !ok { SameAgain(s, blocks[0], d.pub, Coming(dec.input, dec.state), dec.eobrun, b, block[..]); }
  }

  lemma SameAgain(s: AcScan, want: seq<int>, t: HuffTbl, bits: seq<bool>, run: nat, b: seq<int>, u: seq<int>)
    requires GoodAcScan(s) && s.refine && |want| == 64 && WellFormed(t) && Ready(s, want, b) && JcoefBlock(u)
    requires var p := PR.ReadRefine(t, bits, PR.Known(MagsOf(s, want)), run);
             p.Some? && p.value.value.evs == PR.ChangesIn(MagsOf(s, want), 0, Width(s))
    requires SameOutcome(t, bits, PlacesOf(s.order, s.ss, s.se), s.al, u, b, run)
    ensures NoHarm(s, want, b, u)
  {
    hide WellFormed, Changed, MagsOf, PR.ReadRefine, PR.ChangesIn, PR.Known, ScanOrder;
  }

  // ---- One MCU -----------------------------------------------------------------------------------------------------

  // A restart is due, and the source has to wait for its marker; some of what comes
  // before it may have been thrown away.
  lemma StillDue(input: seq<byte>, st: BitState, st': BitState, c: Tables, s: AcScan, t: HuffTbl, toGo: nat, run: nat,
      num: nat, blocks: seq<seq<int>>)
    requires Ahead(input, st, c, s, t, toGo, run, num, blocks) && IsDue(s.interval, toGo)
    requires GoodState(st', |input|) && !st'.insufficient && AheadOf(input, |input|, st') == AheadOf(input, |input|, st)
    ensures Ahead(input, st', c, s, t, toGo, run, num, blocks)
  {
    hide CodesFor, Coming, AheadOf, Follow, PR.ReadRefine, ReadFirst, AcFits;
    StartIsGood(s, t, c);
    DueMeans(s.interval, toGo, blocks);
    var tail :| ReadsUpTo(s, t, Coming(input, st), run, [], tail);
    assert ReadsUpTo(s, t, Coming(input, st'), run, [], Coming(input, st'));
  }

  lemma RestartIsNext(input: seq<byte>, st: BitState, c: Tables, s: AcScan, t: HuffTbl, toGo: nat, run: nat, num: nat,
      blocks: seq<seq<int>>)
    requires Ahead(input, st, c, s, t, toGo, run, num, blocks) && IsDue(s.interval, toGo) && blocks != []
    ensures var f := AheadOf(input, |input|, st);
            && f.Marker? && f.code == RST0 + num % 8
            && forall st': BitState ::
                GoodState(st', |input|) && st'.pos == f.next && st'.bitsLeft == 0 && st'.marker == 0
                && !st'.insufficient ==>
                Ahead(input, st', c, s, t, s.interval, 0, num + 1, blocks)
  {
    hide CodesFor, Coming, AheadOf, AcSegs, AcScanTokens, ReadsPiece, AcFits, Holds, GoodState, TokensCoded;
    StartIsGood(s, t, c);
    DueMeans(s.interval, toGo, blocks);
    var f := AheadOf(input, |input|, st);
    forall st': BitState | GoodState(st', |input|) && st'.pos == f.next && st'.bitsLeft == 0 && st'.marker == 0
        && !st'.insufficient
      ensures Ahead(input, st', c, s, t, s.interval, 0, num + 1, blocks)
    {
      IntervalStarts(input, st', c, s, t, num + 1, blocks, f.next);
    }
  }

  lemma AheadMeans(input: seq<byte>, st: BitState, c: Tables, s: AcScan, t: HuffTbl, toGo: nat, run: nat, num: nat,
      blocks: seq<seq<int>>)
    requires Ahead(input, st, c, s, t, toGo, run, num, blocks)
    ensures GoodAcScan(s) && Blocks(blocks) && GoodState(st, |input|) && !st.insufficient
        && AheadOf(input, |input|, st).Marker?
    ensures blocks != [] ==> |blocks[0]| == 64
  {
    hide CodesFor, Coming, AheadOf, Follow, ReadsPiece, AcFits;
    StartIsGood(s, t, c);
  }

  // decode_mcu_AC_first and decode_mcu_AC_refine. When the source has to wait, the caller
  // can repeat the call with the block as it was left; when all of the data is there it
  // does not have to.
  method DecodeMcu(dec: D.ProgDecoder, avail: nat, d: DTbl, block: array<int>, s: AcScan, ghost c: Tables,
      ghost num0: nat, ghost blocks: seq<seq<int>>)
    returns (ok: bool, ghost num: nat)
    requires dec.Valid() && avail <= |dec.input| && dec.interval == s.interval && DecodesWith(d.pub, d)
        && block.Length == 64
    requires Ahead(dec.input, dec.state, c, s, d.pub, dec.restartsToGo, dec.eobrun, num0, blocks)
        && num0 % 8 == dec.nextRestartNum
    requires GoodAcScan(s) && Blocks(blocks) && blocks != [] && Ready(s, blocks[0], block[..])
    modifies dec, block
    ensures dec.Valid() && num % 8 == dec.nextRestartNum && (avail == |dec.input| ==> ok)
    ensures ok ==> Ahead(dec.input, dec.state, c, s, d.pub, dec.restartsToGo, dec.eobrun, num, blocks[1..])
                   && Received(s, blocks[0], old(block[..]), block[..])
    ensures !ok ==> Ahead(dec.input, dec.state, c, s, d.pub, dec.restartsToGo, dec.eobrun, num, blocks)
                    && NoHarm(s, blocks[0], old(block[..]), block[..])
  {
    hide DecodesWith, Ahead, Ready, Received, GoodAcScan, AheadOf, GoodState;
    num := num0;
    AheadMeans(dec.input, dec.state, c, s, d.pub, dec.restartsToGo, dec.eobrun, num, blocks);
    if dec.interval != 0 && dec.restartsToGo == 0 {
      ghost var st := dec.state;
      RestartIsNext(dec.input, st, c, s, d.pub, dec.restartsToGo, dec.eobrun, num, blocks);
      var r := dec.ProcessRestart(avail);
      if r != Restarted {
        StillDue(dec.input, st, dec.state, c, s, d.pub, dec.restartsToGo, dec.eobrun, num, blocks);
        return false, num;
      }
      num := num + 1;
      AheadMeans(dec.input, dec.state, c, s, d.pub, dec.restartsToGo, dec.eobrun, num, blocks);
    }
    if !dec.state.insufficient {
      var br := new BitReader(dec.input, avail, dec.state);
      var run;
      if s.refine {
        ok, run := RefineBlock(dec, br, d, block, s, c, num, blocks);
      } else {
        ok, run := FirstBlock(dec, br, d, block, s, c, num, blocks);
      }
      if !ok {
        return;
      }
      dec.state := br.State();
      dec.eobrun := run;
    }
    if dec.interval != 0 {
      dec.restartsToGo := dec.restartsToGo - 1;
    }
    ok := true;
    AheadMeans(dec.input, dec.state, c, s, d.pub, dec.restartsToGo, dec.eobrun, num, blocks[1..]);
  }

  // The caller tries with as much data as there is each time, in the end with all of it.
  method ReceiveBlock(dec: D.ProgDecoder, arrivals: seq<nat>, d: DTbl, b: seq<int>, s: AcScan, ghost c: Tables,
      ghost num0: nat, ghost blocks: seq<seq<int>>)
    returns (got: seq<int>, ghost num: nat)
    requires dec.Valid() && dec.interval == s.interval && DecodesWith(d.pub, d)
    requires Ahead(dec.input, dec.state, c, s, d.pub, dec.restartsToGo, dec.eobrun, num0, blocks)
        && num0 % 8 == dec.nextRestartNum
    requires GoodAcScan(s) && Blocks(blocks) && blocks != [] && Ready(s, blocks[0], b)
    modifies dec
    ensures dec.Valid() && num % 8 == dec.nextRestartNum
    ensures Ahead(dec.input, dec.state, c, s, d.pub, dec.restartsToGo, dec.eobrun, num, blocks[1..])
        && Received(s, blocks[0], b, got)
  {
    hide DecodesWith, Ahead, Received, GoodAcScan, AheadOf, GoodState, JcoefBlock, KnownIn, PR.Known;
    var block := new int[64](i requires 0 <= i < 64 => b[i]);
    assert block[..] == b;
    num := num0;
    var ok;
    for i := 0 to |arrivals|
      invariant fresh(block) && block.Length == 64 && NoHarm(s, blocks[0], b, block[..])
      invariant dec.Valid() && num % 8 == dec.nextRestartNum
      invariant Ahead(dec.input, dec.state, c, s, d.pub, dec.restartsToGo, dec.eobrun, num, blocks)
    {
      ok, num := DecodeMcu(dec, D.Arrived(dec.input, arrivals[i]), d, block, s, c, num, blocks);
      if ok {
        return block[..], num;
      }
    }
    ok, num := DecodeMcu(dec, |dec.input|, d, block, s, c, num, blocks);
    got := block[..];
  }

  // ---- The whole scan ----------------------------------------------------------------------------------------------

  predicate AllReady(s: AcScan, blocks: seq<seq<int>>, had: seq<seq<int>>)
    requires GoodAcScan(s) && Blocks(blocks)
  {
    |had| == |blocks| && forall i :: 0 <= i < |blocks| ==> Ready(s, blocks[i], had[i])
  }

  method DecodeAcScan(dec: D.ProgDecoder, waits: seq<seq<nat>>, d: DTbl, had: seq<seq<int>>, s: AcScan, ghost c: Tables,
      ghost blocks: seq<seq<int>>)
    returns (got: seq<seq<int>>)
    requires dec.Valid() && dec.interval == s.interval && DecodesWith(d.pub, d) && |waits| == |had|
        && dec.nextRestartNum == 0
    requires Ahead(dec.input, dec.state, c, s, d.pub, dec.restartsToGo, dec.eobrun, 0, blocks)
    requires GoodAcScan(s) && Blocks(blocks) && AllReady(s, blocks, had)
    modifies dec
    ensures |got| == |blocks| == |had| && forall i :: 0 <= i < |blocks| ==> Received(s, blocks[i], had[i], got[i])
  {
    hide DecodesWith, Ahead, Received, GoodAcScan, GoodState, Ready;
    ghost var now, num := blocks, 0;
    got := [];
    for i := 0 to |had|
      invariant dec.Valid() && num % 8 == dec.nextRestartNum && now == blocks[i..] && |got| == i
      invariant Ahead(dec.input, dec.state, c, s, d.pub, dec.restartsToGo, dec.eobrun, num, now)
      invariant forall j :: 0 <= j < i ==> Received(s, blocks[j], had[j], got[j])
    {
      assert now[0] == blocks[i];
      var one;
      one, num := ReceiveBlock(dec, waits[i], d, had[i], s, c, num, now);
      got := got + [one];
      now := now[1..];
    }
  }
}
