// Progressive transmission of an image by a script. After every scan of an accepted
// script the decoder knows each coefficient down to the bit position of the last scan it
// was in, and after a script that goes down to bit 0 it has the original image.
module ProgTransmit {
  import opened Bytes
  import opened ZigzagOrder
  import opened HuffDerived
  import HuffMerges
  import opened HuffTree
  import opened HuffTokens
  import opened HuffSegments
  import opened HuffSeqScan
  import opened HuffOptimise
  import opened ProgBlocks
  import opened ProgGather
  import opened ProgApprox
  import opened ProgAcIntervals
  import opened ProgAcScan
  import opened ProgDc
  import opened ProgDcIntervals
  import opened ProgDcScan
  import opened ProgDcImage
  import opened ProgDcTransmit
  import S = ScanScript

  // ---- One scan of a script ----------------------------------------------------------------------------------------

  predicate GoodComps(comps: seq<Comp>) {
    forall i :: 0 <= i < |comps| ==> comps[i].dcTbl < NUM_HUFF_TBLS && comps[i].acTbl < NUM_HUFF_TBLS
  }

  // A scan of the script that is in order by itself.
  predicate ScanOk(n: nat, info: S.ScanInfo) {
    S.GoodInfo(info) && S.ComponentsOk(n, info) && S.ParametersOk(info)
  }

  function IndexOf(n: nat, info: S.ScanInfo): (index: seq<nat>)
    requires ScanOk(n, info)
    ensures |index| == info.compsInScan && forall i :: 0 <= i < |index| ==> index[i] < n && index[i] == info.index[i]
    ensures forall c :: InIndex(index, c) <==> S.InScan(info, c)
  {
    var index: seq<nat> := seq(info.compsInScan,
        i requires 0 <= i < info.compsInScan => assert 0 <= info.index[i]; info.index[i]);
    InIndexIsInScan(index, info);
    index
  }

  lemma InIndexIsInScan(index: seq<nat>, info: S.ScanInfo)
    requires S.GoodInfo(info) && 0 <= info.compsInScan <= S.MAX_COMPS_IN_SCAN && |index| == info.compsInScan
    requires forall i :: 0 <= i < |index| ==> index[i] == info.index[i]
    ensures forall c :: InIndex(index, c) <==> S.InScan(info, c)
  {
    forall c ensures InIndex(index, c) <==> S.InScan(info, c) {
      if InIndex(index, c) {
        var i :| 0 <= i < |index| && index[i] == c;
        assert info.index[i] == c;
      }
      if S.InScan(info, c) {
        var i :| 0 <= i < info.compsInScan && i < S.MAX_COMPS_IN_SCAN && info.index[i] == c;
        assert index[i] == c;
      }
    }
  }

  // What is to be sent: the table numbers and the blocks of each component.
  datatype Source = Source(order: seq<nat>, comps: seq<Comp>, image: Image)

  // One scan: its line in the script, the number of MCUs between its restart markers, and
  // which blocks its MCUs have.
  datatype Part = Part(info: S.ScanInfo, interval: nat, layout: seq<seq<Slot>>)

  predicate GoodImage(image: Image) {
    Blocks64(image) && forall c :: 0 <= c < |image| ==> image[c] != []
  }

  predicate GoodSource(src: Source) {
    ScanOrder(src.order, 63) && GoodComps(src.comps) && |src.image| == |src.comps| && GoodImage(src.image)
  }

  lemma SourceHasComps(src: Source)
    requires GoodSource(src)
    ensures ScanOrder(src.order, 63) && GoodComps(src.comps)
  {
  }

  function DcOf(comps: seq<Comp>, part: Part): (s: DcScan)
    requires GoodComps(comps) && ScanOk(|comps|, part.info)
    ensures GoodDcScan(s) && |s.tbls| == part.info.compsInScan && s.al == part.info.al
        && (s.refine <==> part.info.ah != 0)
  {
    var index := IndexOf(|comps|, part.info);
    DcScan(seq(|index|, i requires 0 <= i < |index| => comps[index[i]].dcTbl), part.info.al, part.info.ah != 0,
        part.interval)
  }

  function AcOf(order: seq<nat>, comps: seq<Comp>, part: Part): (s: AcScan)
    requires ScanOrder(order, 63) && GoodComps(comps) && ScanOk(|comps|, part.info) && part.info.ss > 0
    ensures GoodAcScan(s) && s.order == order && s.ss == part.info.ss && s.se == part.info.se && s.al == part.info.al
    ensures s.refine <==> part.info.ah != 0
  {
    var s := AcScan(order, part.info.ss, part.info.se, part.info.al, part.info.ah != 0, comps[part.info.index[0]].acTbl,
        part.interval);
    IsGoodAcScan(s);
    s
  }

  // The MCUs of a DC scan have every block of the components; AC scans take the blocks
  // of their component as they come.
  ghost predicate LayoutFits(part: Part, image: Image)
    requires ScanOk(|image|, part.info)
  {
    part.info.ss == 0 ==>
      GoodLayout(IndexOf(|image|, part.info), image, part.layout)
          && Complete(IndexOf(|image|, part.info), image, part.layout)
  }

  ghost predicate PartOk(src: Source, part: Part) {
    GoodSource(src) && ScanOk(|src.comps|, part.info) && LayoutFits(part, src.image)
  }

  function McusFor(src: Source, part: Part): (mcus: seq<seq<Unit>>)
    requires GoodSource(src) && ScanOk(|src.comps|, part.info) && part.info.ss == 0
    requires GoodLayout(IndexOf(|src.comps|, part.info), src.image, part.layout)
    ensures McusOf(DcOf(src.comps, part), mcus)
  {
    UnitsAreGood(DcOf(src.comps, part), IndexOf(|src.comps|, part.info), src.image, part.layout);
    UnitsOf(IndexOf(|src.comps|, part.info), src.image, part.layout)
  }

  // All coefficients and differences of the scan are in range.
  ghost predicate Codable(src: Source, part: Part)
    requires PartOk(src, part)
  {
    if part.info.ss == 0 then DcScanOk(DcOf(src.comps, part), McusFor(src, part))
    else AcFits(AcOf(src.order, src.comps, part), src.image[part.info.index[0]])
  }

  // The symbols of the scan, by restart intervals.
  ghost function SegmentsOf(src: Source, part: Part): (segs: seq<seq<Token>>)
    requires PartOk(src, part) && Codable(src, part)
  {
    if part.info.ss == 0 then DcSegs(DcOf(src.comps, part), McusFor(src, part))
    else AcSegs(AcOf(src.order, src.comps, part), src.image[part.info.index[0]])
  }

  ghost function SymbolsOf(src: Source, part: Part): (toks: seq<Token>)
    requires PartOk(src, part) && Codable(src, part)
    ensures TokensOk(toks) && toks == AllOf(SegmentsOf(src, part))
  {
    if part.info.ss == 0 then TokensOfDc(DcOf(src.comps, part), McusFor(src, part))
    else AcScanTokens(AcOf(src.order, src.comps, part), src.image[part.info.index[0]])
  }

  // The tables that the scan uses. DC refinement uses none.
  function TablesUsed(src: Source, part: Part): (tbls: seq<nat>)
    requires GoodSource(src) && ScanOk(|src.comps|, part.info)
  {
    if part.info.ss > 0 then [AcOf(src.order, src.comps, part).tbl]
    else if part.info.ah == 0 then DcOf(src.comps, part).tbls
    else []
  }

  // The counts of one of them lead to a code of more than 32 bits.
  ghost predicate TableTooLong(src: Source, part: Part)
    requires PartOk(src, part) && Codable(src, part)
  {
    AnyTooLong(SymbolsOf(src, part), part.info.ss == 0, TablesUsed(src, part))
  }

  // That takes 9227464 symbols or more.
  lemma SmallScanFits(src: Source, part: Part)
    requires PartOk(src, part) && Codable(src, part) && |SymbolsOf(src, part)| + 1 < HuffMerges.FIB35
    ensures !TableTooLong(src, part)
  {
    hide Codable, PartOk, SymbolsOf, AnyTooLong, GoodSource;
    PartIsOk(src, part);
    FewSymbolsAnyTable(SymbolsOf(src, part), part.info.ss == 0, TablesUsed(src, part));
  }

  // The counters of the statistics pass do not overflow.
  ghost predicate Countable(src: Source, part: Part)
    requires PartOk(src, part)
  {
    Codable(src, part) ==> |SymbolsOf(src, part)| < MAX_COUNT
  }

  lemma PartIsOk(src: Source, part: Part)
    requires PartOk(src, part)
    ensures GoodSource(src) && ScanOk(|src.comps|, part.info)
  {
  }

  // ---- Writing -----------------------------------------------------------------------------------------------------

  // The tables were made for the scan and have a code for each of its symbols.
  ghost predicate TablesServe(src: Source, part: Part, t: Tabs)
    requires PartOk(src, part) && Codable(src, part)
  {
    var isDC := part.info.ss == 0;
    && GoodTables(CodesOf(isDC, t)) && TokensCoded(CodesOf(isDC, t), SymbolsOf(src, part))
    && (TablesUsed(src, part) != [] ==> MadeFor(isDC, TablesUsed(src, part), t))
  }

  // The scan has been written behind dest: its segments with restart markers between them.
  ghost predicate PartWritten(src: Source, part: Part, t: Tabs, dest: seq<byte>, out: seq<byte>) {
    && PartOk(src, part) && Codable(src, part) && TablesServe(src, part, t)
    && Finished(CodesOf(part.info.ss == 0, t), dest, SegmentsOf(src, part), out)
  }

  method WritePart(src: Source, part: Part, dest: seq<byte>) returns (r: Outcome, t: Tabs, out: seq<byte>)
    requires PartOk(src, part) && Countable(src, part)
    ensures r != MissingCode
    ensures r == OutOfRange <==> !Codable(src, part)
    ensures r == TooLongACode <==> Codable(src, part) && TableTooLong(src, part)
    ensures r == Written ==> PartWritten(src, part, t, dest, out)
  {
    hide GoodDcScan, GoodAcScan, ScanOrder, AnyTooLong, GoodLayout, Complete, McusOf, DcScanOk, TokensOfDc, DcSegs,
        AcFits, AcScanTokens, AcSegs, Finished,
      MadeFor, TokensCoded, AllThere, GoodTables, UnitsOf, IndexOf;
    if part.info.ss == 0 {
      var s, mcus := DcOf(src.comps, part), McusFor(src, part);
      UnitsAllThere(s, IndexOf(|src.comps|, part.info), src.image, part.layout);
      r, t, out := WriteDcScan(s, mcus, dest);
      NoTables(SymbolsOfCodable(src, part), true);
    } else {
      var s := AcOf(src.order, src.comps, part);
      ComponentBlocks(src.image, part.info.index[0]);
      r, t, out := WriteAcScan(s, src.image[part.info.index[0]], dest);
      if r == Written { MadeIsGood(false, [s.tbl], t); }
    }
  }

  ghost function SymbolsOfCodable(src: Source, part: Part): seq<Token>
    requires PartOk(src, part)
  {
    if Codable(src, part) then SymbolsOf(src, part) else []
  }

  lemma NoTables(toks: seq<Token>, isDC: bool)
    ensures !AnyTooLong(toks, isDC, [])
  {
  }

  lemma ComponentBlocks(image: Image, c: nat)
    requires Blocks64(image) && c < |image|
    ensures Blocks(image[c])
  {
  }

  // ---- Reading -----------------------------------------------------------------------------------------------------

  predicate ComponentExpected(s: AcScan, pos: seq<seq<int>>, c: nat) {
    c < |pos| && ProgAcScan.Expected(s, pos[c])
  }

  // What validate_script has checked is what the decoder needs.
  lemma AcFollows(order: seq<nat>, comps: seq<Comp>, part: Part, pos: S.Positions)
    requires ScanOrder(order, 63) && GoodComps(comps) && S.GoodPos(|comps|, pos) && S.GoodInfo(part.info)
        && S.ScanFollows(|comps|, pos, part.info)
    requires part.info.ss > 0
    ensures ScanOk(|comps|, part.info) && ComponentExpected(AcOf(order, comps, part), pos, part.info.index[0])
    ensures S.AfterScan(|comps|, pos, part.info)
            == pos[part.info.index[0] := Mark(pos[part.info.index[0]], part.info.ss, part.info.se, part.info.al)]
  {
    var info := part.info;
    assert S.Extends(pos[info.index[0]], info);
    forall c | 0 <= c < |comps| ensures S.InScan(info, c) <==> c == info.index[0] { }
  }

  lemma DcFollows(comps: seq<Comp>, part: Part, pos: S.Positions)
    requires GoodComps(comps) && S.GoodPos(|comps|, pos) && S.GoodInfo(part.info)
        && S.ScanFollows(|comps|, pos, part.info) && part.info.ss == 0
    ensures ScanOk(|comps|, part.info) && DcExpected(DcOf(comps, part), IndexOf(|comps|, part.info), pos)
    ensures S.AfterScan(|comps|, pos, part.info) == MarkDc(IndexOf(|comps|, part.info), pos, part.info.al)
  {
    var info := part.info;
    forall c | 0 <= c < |pos| && InIndex(IndexOf(|comps|, info), c) && info.ah != 0 ensures pos[c][0] == info.al + 1 {
      var i :| 0 <= i < info.compsInScan && info.index[i] == c;
      assert S.Extends(pos[info.index[i]], info);
    }
  }

  lemma TheTable(s: AcScan, t: Tabs)
    requires GoodAcScan(s) && MadeFor(false, [s.tbl], t)
    ensures s.tbl < NUM_HUFF_TBLS && GoodTables(CodesOf(false, t)) && |t.ts| == NUM_HUFF_TBLS
    ensures Paired(t.ts[s.tbl], TableOf(CodesOf(false, t), false, s.tbl)) && EncoderAccepts(false, t.ts[s.tbl])
  {
    hide Paired, EncoderAccepts, GoodCTbl;
    assert [s.tbl][0] == s.tbl;
  }

  method ReceiveAcScan(s: AcScan, c: nat, input: seq<byte>, start: nat, waits: nat -> seq<nat>, t: Tabs, had: Image,
                       ghost image: Image, ghost pos: seq<seq<int>>)
    returns (got: Image)
    requires GoodAcScan(s) && start <= |input| && ImageApprox(s.order, image, had, pos) && ComponentExpected(s, pos, c)
    requires Blocks64(image) && Blocks(image[c]) && AcFits(s, image[c]) && MadeFor(false, [s.tbl], t)
    requires TokensCoded(CodesOf(false, t), AcScanTokens(s, image[c]))
        && Holds(input, StartAt(start), CodesOf(false, t), AcSegs(s, image[c]), 0)
    ensures ImageApprox(s.order, image, got, pos[c := Mark(pos[c], s.ss, s.se, s.al)])
  {
    hide BlocksApprox, AcFits, AcScanTokens, AcSegs, MadeFor, TokensCoded, Holds, GoodTables, ProgAcScan.Expected,
        GoodAcScan, ScanOrder, Blocks, Paired,
      EncoderAccepts;
    OrderIsScanOrder(s);
    TheTable(s, t);
    var had1 := had[c];
    ghost var at := pos[c];
    assert BlocksApprox(s.order, image[c], had1, at);
    var one := ReadAcScan(s, input, start, seq(|had1|, i requires 0 <= i < |had1| => waits(i)), t.ts[s.tbl], had1,
        CodesOf(false, t), image[c], at);
    got := had[c := one];
  }

  lemma OrderIsScanOrder(s: AcScan)
    requires GoodAcScan(s)
    ensures ScanOrder(s.order, 63)
  {
  }

  // One scan from the file into the decoder's blocks.
  method ReadPart(order: seq<nat>, comps: seq<Comp>, part: Part, t: Tabs, input: seq<byte>, start: nat,
      waits: nat -> seq<nat>, had: Image,
                  ghost src: Source, ghost pos: S.Positions)
    returns (got: Image)
    requires PartOk(src, part) && Codable(src, part) && TablesServe(src, part, t) && order == src.order
        && comps == src.comps && start <= |input|
    requires Holds(input, StartAt(start), CodesOf(part.info.ss == 0, t), SegmentsOf(src, part), 0)
    requires S.GoodPos(|comps|, pos) && S.GoodInfo(part.info) && S.ScanFollows(|comps|, pos, part.info)
        && ImageApprox(order, src.image, had, pos)
    ensures ImageApprox(order, src.image, got, S.AfterScan(|comps|, pos, part.info))
  {
    hide ImageApprox, GoodDcScan, GoodAcScan, ScanOrder, S.ScanFollows, DcExpected, ComponentExpected, GoodLayout,
        Complete, McusOf, DcScanOk, TokensOfDc,
      DcSegs, AcFits, AcScanTokens, AcSegs, S.InScan, MadeFor, TokensCoded, GoodTables, Holds, UnitsOf, IndexOf;
    if part.info.ss == 0 {
      DcFollows(comps, part, pos);
      got := ReceiveDcScan(DcOf(comps, part), order, IndexOf(|comps|, part.info), part.layout, input, start, waits, t,
          had, src.image, pos);
    } else {
      AcFollows(order, comps, part, pos);
      ComponentBlocks(src.image, part.info.index[0]);
      got := ReceiveAcScan(AcOf(order, comps, part), part.info.index[0], input, start, waits, t, had, src.image, pos);
    }
  }

  // ---- A whole script ----------------------------------------------------------------------------------------------

  function Infos(parts: seq<Part>): (scans: seq<S.ScanInfo>)
    ensures |scans| == |parts| && forall i :: 0 <= i < |scans| ==> scans[i] == parts[i].info
  {
    seq(|parts|, i requires 0 <= i < |parts| => parts[i].info)
  }

  // Cleared blocks, as the decoder starts with.
  function Cleared(image: Image): (got: Image)
    ensures SameShape(image, got)
    ensures forall c, b :: 0 <= c < |got| && 0 <= b < |got[c]| ==> got[c][b] == seq(64, _ => 0)
  {
    seq(|image|, c requires 0 <= c < |image| => seq(|image[c]|, b => seq(64, _ => 0)))
  }

  predicate JcoefImage(image: Image) {
    forall c, b :: 0 <= c < |image| && 0 <= b < |image[c]| ==> JcoefBlock(image[c][b])
  }

  lemma NothingKnownYet(order: seq<nat>, image: Image)
    requires ScanOrder(order, 63) && JcoefImage(image)
    ensures ImageApprox(order, image, Cleared(image), S.NothingSent(|image|))
  {
    hide JcoefBlock;
    forall c, b | 0 <= c < |image|
        && 0 <= b < |image[c]| ensures BlockApprox(order, image[c][b], Cleared(image)[c][b], S.NothingSent(|image|)[c])
        { }
  }

  predicate AllSent(pos: S.Positions) {
    forall c, k :: 0 <= c < |pos| && 0 <= k < 64 && k < |pos[c]| ==> pos[c][k] == 0
  }

  lemma NothingToUnknown(order: seq<nat>, image: Image, got: Image, pos: S.Positions)
    requires ScanOrder(order, 63) && ImageApprox(order, image, got, pos)
    requires AllSent(pos)
    ensures got == image
  {
    hide BlockApprox;
    forall c | 0 <= c < |image| ensures got[c] == image[c] {
      forall b | 0 <= b < |image[c]| ensures got[c][b] == image[c][b] {
        assert BlockApprox(order, image[c][b], got[c][b], pos[c]);
        Exact(order, image[c][b], got[c][b], pos[c]);
      }
    }
  }

  lemma FollowsMeans(n: nat, pos: S.Positions, info: S.ScanInfo)
    requires S.GoodPos(n, pos) && S.GoodInfo(info) && S.ScanFollows(n, pos, info)
    ensures S.ComponentsOk(n, info) && S.ParametersOk(info)
  {
  }

  // The script that is left follows from where the decoder is.
  lemma NextFollows(n: nat, pos: S.Positions, scans: seq<S.ScanInfo>)
    requires S.GoodPos(n, pos) && S.GoodScript(scans) && S.ScriptFollows(n, pos, scans) && scans != []
    ensures S.ScanFollows(n, pos, scans[0]) && S.ParametersOk(scans[0])
    ensures S.GoodScript(scans[1..]) && S.ScriptFollows(n, S.AfterScan(n, pos, scans[0]), scans[1..])
    ensures S.AfterScript(n, pos, scans) == S.AfterScript(n, S.AfterScan(n, pos, scans[0]), scans[1..])
  {
    FollowsMeans(n, pos, scans[0]);
  }

  lemma {:induction false} AllScansOk(n: nat, pos: S.Positions, scans: seq<S.ScanInfo>)
    requires S.GoodPos(n, pos) && S.GoodScript(scans) && S.ScriptFollows(n, pos, scans)
    ensures forall i :: 0 <= i < |scans| ==> ScanOk(n, scans[i])
    decreases |scans|
  {
    hide S.ScanFollows, S.AfterScan, S.ComponentsOk, S.ParametersOk;
    if scans != [] {
      FollowsMeans(n, pos, scans[0]);
      NextFollows(n, pos, scans);
      AllScansOk(n, S.AfterScan(n, pos, scans[0]), scans[1..]);
      forall i | 0 <= i < |scans| ensures ScanOk(n, scans[i]) {
        if i > 0 { assert scans[i] == scans[1..][i - 1]; }
      }
    }
  }

  // What the caller supplies: the order of the blocks of each scan, and that it has
  // fewer than 10^9 symbols.
  ghost predicate Suitable(src: Source, parts: seq<Part>) {
    && GoodSource(src) && S.GoodScript(Infos(parts))
    && forall i ::
        0 <= i < |parts| && ScanOk(|src.comps|, parts[i].info) ==> PartOk(src, parts[i]) && Countable(src, parts[i])
  }

  // Some coefficient of the scan is out of range.
  ghost predicate Stuck(src: Source, part: Part) {
    PartOk(src, part) && !Codable(src, part)
  }

  // A table of the scan cannot be made.
  ghost predicate Clogged(src: Source, part: Part) {
    PartOk(src, part) && Codable(src, part) && TableTooLong(src, part)
  }

  ghost predicate AllGo(src: Source, parts: seq<Part>, n: nat)
    requires n <= |parts|
  {
    forall i :: 0 <= i < n ==> !Stuck(src, parts[i]) && !Clogged(src, parts[i])
  }

  // What stands in front of a scan begins with a marker.
  predicate IsHead(head: seq<byte>) {
    |head| >= 2 && head[0] == 0xFF && 0 < head[1] < 0xFF
  }

  predicate AllHeads(heads: seq<seq<byte>>) {
    forall i :: 0 <= i < |heads| ==> IsHead(heads[i])
  }

  const EOI: seq<byte> := [0xFF, 0xD9]

  // Where the entropy-coded data of scan i begin: outs[i] is the file as far as its end.
  function Before(dest: seq<byte>, heads: seq<seq<byte>>, outs: seq<seq<byte>>, i: nat): seq<byte>
    requires i <= |outs| && i < |heads|
  {
    (if i == 0 then dest else outs[i - 1]) + heads[i]
  }

  ghost predicate Link(src: Source, parts: seq<Part>, heads: seq<seq<byte>>, dest: seq<byte>, ts: seq<Tabs>,
      outs: seq<seq<byte>>, i: nat) {
    && i < |ts| && i < |outs| && i < |parts| && i < |heads|
    && PartWritten(src, parts[i], ts[i], Before(dest, heads, outs, i), outs[i])
  }

  // The file scan by scan, each behind its header.
  ghost predicate Chain(src: Source, parts: seq<Part>, heads: seq<seq<byte>>, dest: seq<byte>, ts: seq<Tabs>,
      outs: seq<seq<byte>>, n: nat) {
    && n == |ts| == |outs| <= |parts| == |heads| && AllHeads(heads)
    && forall i :: 0 <= i < n ==> Link(src, parts, heads, dest, ts, outs, i)
  }

  lemma ChainMore(src: Source, parts: seq<Part>, heads: seq<seq<byte>>, dest: seq<byte>, ts: seq<Tabs>,
      outs: seq<seq<byte>>, n: nat, t: Tabs,
                  out: seq<byte>)
    requires Chain(src, parts, heads, dest, ts, outs, n) && n < |parts|
    requires PartWritten(src, parts[n], t, Before(dest, heads, outs, n), out)
    ensures Chain(src, parts, heads, dest, ts + [t], outs + [out], n + 1)
  {
    hide PartWritten;
    forall i | 0 <= i < n + 1 ensures Link(src, parts, heads, dest, ts + [t], outs + [out], i) {
      assert Before(dest, heads, outs + [out], i) == Before(dest, heads, outs, i);
      if i < n { assert Link(src, parts, heads, dest, ts, outs, i); }
    }
  }

  // The master loop of compression: each scan has its own statistics and tables.
  method WriteScript(src: Source, parts: seq<Part>, heads: seq<seq<byte>>, dest: seq<byte>)
    returns (r: Outcome, ts: seq<Tabs>, outs: seq<seq<byte>>)
    requires Suitable(src, parts) && AllHeads(heads) && |heads| == |parts|
    requires forall i :: 0 <= i < |parts| ==> ScanOk(|src.comps|, parts[i].info)
    ensures r != MissingCode && (r == Written <==> AllGo(src, parts, |parts|))
    ensures r == TooLongACode ==> exists i :: 0 <= i < |parts| && Clogged(src, parts[i])
    ensures r == OutOfRange ==> exists i :: 0 <= i < |parts| && Stuck(src, parts[i])
    ensures r == Written ==> Chain(src, parts, heads, dest, ts, outs, |parts|)
  {
    hide GoodSource, ScanOk, PartOk, Codable, Countable, TableTooLong, PartWritten, S.GoodScript, Link;
    r, ts, outs := Written, [], [];
    var now := dest;
    for i := 0 to |parts|
      invariant r == Written && AllGo(src, parts, i) && Chain(src, parts, heads, dest, ts, outs, i)
      invariant now == if i == 0 then dest else outs[i - 1]
    {
      var t, out;
      r, t, out := WritePart(src, parts[i], now + heads[i]);
      if r != Written {
        return;
      }
      ChainMore(src, parts, heads, dest, ts, outs, i, t, out);
      ts, outs, now := ts + [t], outs + [out], out;
    }
  }

  // Each scan of the file is followed by some marker.
  lemma GoesOn(src: Source, parts: seq<Part>, heads: seq<seq<byte>>, dest: seq<byte>, ts: seq<Tabs>,
      outs: seq<seq<byte>>, file: seq<byte>, i: nat)
    returns (m: byte, rest: seq<byte>)
    requires Chain(src, parts, heads, dest, ts, outs, |parts|) && i < |parts| && file == outs[|parts| - 1] + EOI
    ensures 0 < m < 0xFF && file == outs[i] + ([0xFF, m] + rest)
    decreases |parts| - i
  {
    hide PartWritten, Finished;
    if i == |parts| - 1 {
      m, rest := 0xD9, [];
      assert [0xFF, 0xD9] + rest == EOI;
    } else {
      var m', rest' := GoesOn(src, parts, heads, dest, ts, outs, file, i + 1);
      assert Link(src, parts, heads, dest, ts, outs, i + 1);
      WrittenBehind(src, parts[i + 1], ts[i + 1], Before(dest, heads, outs, i + 1), outs[i + 1]);
      m := heads[i + 1][1];
      rest := file[|outs[i]| + 2..];
      assert outs[i] + heads[i + 1] <= file;
      assert file[..|outs[i]|] == outs[i];
      assert file[|outs[i]|] == heads[i + 1][0] && file[|outs[i]| + 1] == heads[i + 1][1];
      assert file == outs[i] + ([0xFF, m] + rest);
    }
  }

  lemma WrittenBehind(src: Source, part: Part, t: Tabs, dest: seq<byte>, out: seq<byte>)
    requires PartWritten(src, part, t, dest, out)
    ensures dest <= out
  {
    hide PartOk, Codable, TablesServe, Finished, SegmentsOf;
    DestIsPrefix(CodesOf(part.info.ss == 0, t), dest, SegmentsOf(src, part), out);
  }

  // What the decoder finds where scan i begins.
  lemma PartInFile(src: Source, parts: seq<Part>, heads: seq<seq<byte>>, dest: seq<byte>, ts: seq<Tabs>,
      outs: seq<seq<byte>>, file: seq<byte>, i: nat)
    requires Chain(src, parts, heads, dest, ts, outs, |parts|) && i < |parts| && file == outs[|parts| - 1] + EOI
    ensures PartOk(src, parts[i]) && Codable(src, parts[i]) && TablesServe(src, parts[i], ts[i])
    ensures var start := |Before(dest, heads, outs, i)|;
            && start <= |file|
            && Holds(file, StartAt(start), CodesOf(parts[i].info.ss == 0, ts[i]), SegmentsOf(src, parts[i]), 0)
  {
    hide PartOk, Codable, TablesServe, Finished, SegmentsOf, Holds;
    var m, rest := GoesOn(src, parts, heads, dest, ts, outs, file, i);
    assert Link(src, parts, heads, dest, ts, outs, i);
    WrittenBehind(src, parts[i], ts[i], Before(dest, heads, outs, i), outs[i]);
    FinishedHolds(CodesOf(parts[i].info.ss == 0, ts[i]), Before(dest, heads, outs, i), SegmentsOf(src, parts[i]),
        outs[i], m, rest);
  }

  // The decoder takes the scans one after the other, with the tables it has read and
  // the scan headers; it may have to wait at any byte, any number of times.
  method ReadScript(order: seq<nat>, comps: seq<Comp>, parts: seq<Part>, ts: seq<Tabs>, file: seq<byte>,
      starts: seq<nat>,
                    waits: (nat, nat) -> seq<nat>, blank: Image, ghost src: Source, ghost heads: seq<seq<byte>>,
                        ghost dest: seq<byte>,
                    ghost outs: seq<seq<byte>>)
    returns (got: Image)
    requires GoodSource(src) && order == src.order && comps == src.comps && JcoefImage(src.image)
        && blank == Cleared(src.image) && parts != []
    requires Chain(src, parts, heads, dest, ts, outs, |parts|) && file == outs[|parts| - 1] + EOI
    requires |starts| == |parts| && forall i :: 0 <= i < |parts| ==> starts[i] == |Before(dest, heads, outs, i)|
    requires S.GoodScript(Infos(parts)) && S.ScriptFollows(|comps|, S.NothingSent(|comps|), Infos(parts))
    ensures ImageApprox(order, src.image, got, S.AfterScript(|comps|, S.NothingSent(|comps|), Infos(parts)))
  {
    hide ImageApprox, S.ScanFollows, S.ScriptFollows, S.AfterScript, S.AfterScan, S.NothingSent, JcoefImage, GoodComps,
        ScanOrder, Link, PartOk, Codable,
      TablesServe, Holds, SegmentsOf, Before;
    got := blank;
    NothingKnownYet(order, src.image);
    ghost var pos, now := S.NothingSent(|comps|), Infos(parts);
    for i := 0 to |parts|
      invariant now == Infos(parts)[i..] && S.GoodPos(|comps|, pos) && S.GoodScript(now)
          && S.ScriptFollows(|comps|, pos, now)
      invariant S.AfterScript(|comps|, S.NothingSent(|comps|), Infos(parts)) == S.AfterScript(|comps|, pos, now)
      invariant ImageApprox(order, src.image, got, pos)
    {
      NextFollows(|comps|, pos, now);
      assert now[0] == parts[i].info;
      PartInFile(src, parts, heads, dest, ts, outs, file, i);
      got := ReadPart(order, comps, parts[i], ts[i], file, starts[i], j => waits(i, j), got, src, pos);
      pos := S.AfterScan(|comps|, pos, now[0]);
      now := now[1..];
    }
    NoScansLeft(|comps|, pos);
  }

  method Starts(heads: seq<seq<byte>>, dest: seq<byte>, outs: seq<seq<byte>>) returns (starts: seq<nat>)
    requires |heads| == |outs|
    ensures |starts| == |outs| && forall i :: 0 <= i < |outs| ==> starts[i] == |Before(dest, heads, outs, i)|
  {
    starts := [];
    for i := 0 to |outs|
      invariant |starts| == i && forall j :: 0 <= j < i ==> starts[j] == |Before(dest, heads, outs, j)|
    {
      starts := starts + [|Before(dest, heads, outs, i)|];
    }
  }

  // Checks the script, writes the image scan by scan and reads the file back. What the
  // decoder ends up with is the approximation that the script stands for.
  method SendScript(src: Source, parts: seq<Part>, heads: seq<seq<byte>>, dest: seq<byte>,
      waits: (nat, nat) -> seq<nat>)
    returns (v: S.Verdict, r: Outcome, file: seq<byte>, got: Image, ghost ts: seq<Tabs>, ghost outs: seq<seq<byte>>)
    requires parts != [] && Suitable(src, parts) && S.IsProgressive(Infos(parts)) && JcoefImage(src.image)
        && AllHeads(heads) && |heads| == |parts|
    ensures v.Good? <==> S.AcceptsProgressive(|src.comps|, Infos(parts))
    ensures v.Good? ==> r != MissingCode && (r == Written <==> AllGo(src, parts, |parts|))
    ensures v.Good? && r == TooLongACode ==> exists i :: 0 <= i < |parts| && Clogged(src, parts[i])
    ensures v.Good? && r == OutOfRange ==> exists i :: 0 <= i < |parts| && Stuck(src, parts[i])
    ensures v.Good? && r == Written ==>
        Chain(src, parts, heads, dest, ts, outs, |parts|) && file == outs[|parts| - 1] + EOI
    ensures v.Good? && r == Written ==>
              var pos := S.AfterScript(|src.comps|, S.NothingSent(|src.comps|), Infos(parts));
              ImageApprox(src.order, src.image, got, pos) && (AllSent(pos) ==> got == src.image)
  {
    hide ImageApprox, S.ScanFollows, S.ScriptFollows, S.AfterScript, JcoefImage, Stuck, Clogged, S.InScan, S.AfterScan,
        S.NothingSent, ScanOrder, GoodComps,
      ScanOk, PartOk, Link, AllSent;
    r, file, got, ts, outs := Written, dest, [], [], [];
    v := S.ValidateScript(|src.comps|, Infos(parts));
    if !v.Good? {
      return;
    }
    AllScansOk(|src.comps|, S.NothingSent(|src.comps|), Infos(parts));
    forall i | 0 <= i < |parts| ensures ScanOk(|src.comps|, parts[i].info) { assert Infos(parts)[i] == parts[i].info; }
    var tabs, stages;
    r, tabs, stages := WriteScript(src, parts, heads, dest);
    if r != Written {
      return;
    }
    ts, outs := tabs, stages;
    file := stages[|parts| - 1] + EOI;
    var starts := Starts(heads, dest, stages);
    got := ReadScript(src.order, src.comps, parts, tabs, file, starts, waits, Cleared(src.image), src, heads, dest,
        outs);
    ghost var pos := S.AfterScript(|src.comps|, S.NothingSent(|src.comps|), Infos(parts));
    if AllSent(pos) { NothingToUnknown(src.order, src.image, got, pos); }
  }

  lemma NoScansLeft(n: nat, pos: S.Positions)
    requires S.GoodPos(n, pos)
    ensures S.AfterScript(n, pos, []) == pos
  {
  }
}
