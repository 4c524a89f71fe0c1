// A progressive DC scan from the encoder's image to the decoder's: one more bit, or the
// first ones, of every DC coefficient of its components.
module ProgDcTransmit {
  import opened Bytes
  import opened ZigzagOrder
  import opened HuffCode
  import opened HuffDerived
  import opened HuffBitReader
  import opened HuffTokens
  import opened HuffSegments
  import opened HuffSeqDecoder
  import opened ProgTokens
  import opened ProgAcFirstDecoder
  import opened ProgDc
  import opened ProgDcDecoder
  import opened ProgGather
  import opened ProgApprox
  import opened ProgAcScan
  import opened ProgDcIntervals
  import opened ProgDcScanDecoder
  import opened ProgDcImage
  import D = ProgDecoder
  import H = HuffSeqRoundTrip

  // What the decoder has of an image whose coefficients are known as far as pos says.
  predicate ImageApprox(order: seq<nat>, image: Image, got: Image, pos: seq<seq<int>>)
    requires ScanOrder(order, 63)
  {
    && |image| == |got| == |pos|
    && forall c :: 0 <= c < |image| ==> |pos[c]| == 64 && BlocksApprox(order, image[c], got[c], pos[c])
  }

  lemma ApproxShape(order: seq<nat>, image: Image, got: Image, pos: seq<seq<int>>)
    requires ScanOrder(order, 63) && ImageApprox(order, image, got, pos)
    ensures SameShape(image, got) && Blocks64(image) && Blocks64(got)
  {
    forall c, b | 0 <= c < |image| && 0 <= b < |image[c]| ensures |image[c][b]| == 64 && |got[c][b]| == 64 {
      assert BlockApprox(order, image[c][b], got[c][b], pos[c]);
    }
  }

  lemma SameLayout(index: seq<nat>, a: Image, b: Image, layout: seq<seq<Slot>>)
    requires SameShape(a, b) && GoodLayout(index, a, layout)
    ensures GoodLayout(index, b, layout) && (Complete(index, a, layout) ==> Complete(index, b, layout))
  {
  }

  // ---- Decoding tables ---------------------------------------------------------------------------------------------

  method MakeDcDecoders(s: DcScan, t: Tabs) returns (ds: seq<DTbl>)
    requires GoodDcScan(s) && MadeFor(true, s.tbls, t)
    ensures DcDecoders(ds) && GoodTables(CodesOf(true, t)) && DcPaired(TablesBehind(ds), CodesOf(true, t), s.tbls)
  {
    hide Paired, EncoderAccepts, DecoderAccepts, DcTable, WellFormed, GoodCTbl, GoodCounts, Bounds, Looks;
    ds := [];
    for i := 0 to |s.tbls|
      invariant |ds| == i && DcDecoders(ds)
      invariant forall j :: 0 <= j < i ==> ds[j].pub == t.ts[s.tbls[j]]
    {
      var u := t.ts[s.tbls[i]];
      PairedWell(u, t.cs[s.tbls[i]]);
      EncoderTableDecodes(true, u);
      var r := MakeDDerivedTbl(true, u);
      H.AcceptedIsDcTable(u);
      ds := ds + [r.value];
    }
  }

  // ---- What is wanted ----------------------------------------------------------------------------------------------

  function WantFirst(image: Image, al: nat): (w: seq<seq<int>>)
    requires Blocks64(image)
    ensures |w| == |image|
    ensures forall c :: 0 <= c < |w| ==> |w[c]| == |image[c]|
    ensures forall c, b ::
        0 <= c < |image| && 0 <= b < |image[c]| ==> w[c][b] == Scaled(Floored(image[c][b][0], al), al)
  {
    seq(|image|, c requires 0 <= c < |image| =>
      seq(|image[c]|, b requires 0 <= b < |image[c]| => Scaled(Floored(image[c][b][0], al), al)))
  }

  function WantRefined(image: Image, had: Image, al: nat): (w: seq<seq<int>>)
    requires Blocks64(image) && Blocks64(had) && SameShape(image, had)
    ensures |w| == |image|
    ensures forall c :: 0 <= c < |w| ==> |w[c]| == |image[c]|
    ensures forall c, b ::
        0 <= c < |image| && 0 <= b < |image[c]| ==> w[c][b] == SetBit(had[c][b][0], al, DcBit(image[c][b][0], al))
  {
    seq(|image|, c requires 0 <= c < |image| =>
      seq(|image[c]|, b requires 0 <= b < |image[c]| => SetBit(had[c][b][0], al, DcBit(image[c][b][0], al))))
  }

  // The DC coefficients that the decoder has, in MCU order.
  function HadOf(index: seq<nat>, had: Image, layout: seq<seq<Slot>>): (v: seq<seq<int>>)
    requires Blocks64(had) && GoodLayout(index, had, layout)
    ensures |v| == |layout|
    ensures forall i :: 0 <= i < |layout| ==> |v[i]| == |layout[i]|
    ensures forall i, j ::
        0 <= i < |layout| && 0 <= j < |layout[i]| ==> v[i][j] == had[index[layout[i][j].ci]][layout[i][j].b][0]
  {
    seq(|layout|, i requires 0 <= i < |layout| =>
      seq(|layout[i]|, j requires 0 <= j < |layout[i]| => had[index[layout[i][j].ci]][layout[i][j].b][0]))
  }

  // What the scan makes of the DC coefficients.
  function WantDc(s: DcScan, image: Image, had: Image): (w: seq<seq<int>>)
    requires Blocks64(image) && Blocks64(had) && SameShape(image, had)
    ensures |w| == |image| && forall c :: 0 <= c < |w| ==> |w[c]| == |image[c]|
  {
    if s.refine then WantRefined(image, had, s.al) else WantFirst(image, s.al)
  }

  lemma ReceivedWanted(s: DcScan, index: seq<nat>, image: Image, had: Image, layout: seq<seq<Slot>>,
      values: seq<seq<int>>)
    requires Blocks64(image) && Blocks64(had) && SameShape(image, had) && GoodLayout(index, image, layout)
        && GoodLayout(index, had, layout)
    requires AllReceived(s, UnitsOf(index, image, layout), HadOf(index, had, layout), values, |layout|)
    ensures Wanted(index, layout, values, WantDc(s, image, had))
  {
    hide SetBit, DcBit, Scaled, Floored;
    var mcus: seq<seq<Unit>>, want := UnitsOf(index, image, layout), WantDc(s, image, had);
    forall i, j | 0 <= i < |layout| && 0 <= j < |layout[i]|
      ensures var s := layout[i][j];
      s.ci < |index| && index[s.ci] < |want| && s.b < |want[index[s.ci]]| && values[i][j] == want[index[s.ci]][s.b]
    {
      assert Received(s, mcus[i], HadOf(index, had, layout)[i], values[i]);
      assert mcus[i][j].dc == image[index[layout[i][j].ci]][layout[i][j].b][0];
    }
  }

  // ---- Reading -----------------------------------------------------------------------------------------------------

  // The tables that a refinement scan does not need are not made.
  method DecodersFor(s: DcScan, t: Tabs) returns (ds: seq<DTbl>)
    requires GoodDcScan(s) && GoodTables(CodesOf(true, t)) && (!s.refine ==> MadeFor(true, s.tbls, t))
    ensures DcDecoders(ds) && CodesFor(s, TablesBehind(ds), CodesOf(true, t))
  {
    hide DcDecoders, MadeFor, GoodTables, DcPaired;
    ds := [];
    if s.refine {
      NoDecoders();
    } else {
      ds := MakeDcDecoders(s, t);
    }
  }

  lemma NoDecoders()
    ensures DcDecoders([])
  {
  }

  method ReadDcScan(s: DcScan, index: seq<nat>, layout: seq<seq<Slot>>, input: seq<byte>, start: nat,
      waits: nat -> seq<nat>, t: Tabs, had: Image,
                    ghost image: Image)
    returns (values: seq<seq<int>>)
    requires GoodDcScan(s) && |index| == |s.tbls| && Blocks64(image) && Blocks64(had) && SameShape(image, had)
        && start <= |input|
    requires GoodLayout(index, image, layout) && GoodLayout(index, had, layout)
    requires var mcus := UnitsOf(index, image, layout);
             && McusOf(s, mcus) && DcScanOk(s, mcus) && GoodTables(CodesOf(true, t))
             && (!s.refine ==> MadeFor(true, s.tbls, t))
             && TokensCoded(CodesOf(true, t), TokensOfDc(s, mcus))
             && Holds(input, StartAt(start), CodesOf(true, t), DcSegs(s, mcus), 0)
    ensures Wanted(index, layout, values, WantDc(s, image, had))
  {
    hide MadeFor, TokensCoded, GoodTables, Wanted, AllReceived, CodesFor, DcDecoders, DcSegs, DcScanOk, TokensOfDc,
        Ahead, Holds, WantDc, GoodUnits,
      TablesBehind;
    ghost var mcus, c := UnitsOf(index, image, layout), CodesOf(true, t);
    var ds := DecodersFor(s, t);
    var vals := HadOf(index, had, layout);
    var cis := seq(|layout|, i requires 0
        <= i < |layout| => seq(|layout[i]|, j requires 0 <= j < |layout[i]| => layout[i][j].ci));
    forall i | 0 <= i < |layout| ensures cis[i] == CisOf(mcus[i]) { }
    var dec := new D.ProgDecoder(input, start, s.interval, |s.tbls|);
    assert dec.lastDc == ZeroLast(s);
    IntervalStarts(input, dec.state, c, s, TablesBehind(ds), 0, mcus, start);
    values := DecodeDcScan(dec, seq(|cis|, i requires 0 <= i < |cis| => waits(i)), ds, cis, vals, s, c, mcus);
    ReceivedWanted(s, index, image, had, layout, values);
  }

  // ---- From image to image -----------------------------------------------------------------------------------------

  function MarkDc(index: seq<nat>, pos: seq<seq<int>>, al: nat): (p: seq<seq<int>>)
    requires forall c :: 0 <= c < |pos| ==> |pos[c]| == 64
    ensures |p| == |pos| && forall c ::
        0 <= c < |pos| ==> p[c] == if InIndex(index, c) then Mark(pos[c], 0, 0, al) else pos[c]
  {
    seq(|pos|, c requires 0 <= c < |pos| => if InIndex(index, c) then Mark(pos[c], 0, 0, al) else pos[c])
  }

  predicate DcExpected(s: DcScan, index: seq<nat>, pos: seq<seq<int>>) {
    forall c :: 0 <= c < |pos| && InIndex(index, c) ==> |pos[c]| == 64 && (s.refine ==> pos[c][0] == s.al + 1)
  }

  lemma DcScanApprox(s: DcScan, order: seq<nat>, index: seq<nat>, image: Image, had: Image, pos: seq<seq<int>>,
      got: Image)
    requires ScanOrder(order, 63) && GoodDcScan(s) && ImageApprox(order, image, had, pos) && DcExpected(s, index, pos)
        && SameShape(image, had) && SameShape(had, got)
    requires Blocks64(image) && Blocks64(had)
    requires var want := WantDc(s, image, had);
             forall c, b ::
                 0 <= c < |had| && 0 <= b < |had[c]| ==>
                 got[c][b] == if InIndex(index, c) then had[c][b][0 := want[c][b]] else had[c][b]
    ensures ImageApprox(order, image, got, MarkDc(index, pos, s.al))
  {
    hide BlockApprox, Scaled, SetBit, DcBit, Floored;
    var mark := MarkDc(index, pos, s.al);
    forall c, b | 0 <= c < |image| && 0 <= b < |image[c]| ensures BlockApprox(order, image[c][b], got[c][b], mark[c]) {
      assert BlockApprox(order, image[c][b], had[c][b], pos[c]);
      if InIndex(index, c) {
        if s.refine {
          DcRefineApprox(order, image[c][b], had[c][b], pos[c], s.al);
        } else {
          DcFirstApprox(order, image[c][b], had[c][b], pos[c], s.al);
        }
      }
    }
  }

  // The scan from the file into the decoder's blocks.
  method ReceiveDcScan(s: DcScan, order: seq<nat>, index: seq<nat>, layout: seq<seq<Slot>>, input: seq<byte>,
      start: nat, waits: nat -> seq<nat>, t: Tabs,
                       had: Image, ghost image: Image, ghost pos: seq<seq<int>>)
    returns (got: Image)
    requires ScanOrder(order, 63) && GoodDcScan(s) && |index| == |s.tbls| && start <= |input|
    requires ImageApprox(order, image, had, pos) && DcExpected(s, index, pos)
    requires Blocks64(image) && GoodLayout(index, image, layout) && Complete(index, image, layout)
    requires var mcus := UnitsOf(index, image, layout);
             && McusOf(s, mcus) && DcScanOk(s, mcus) && GoodTables(CodesOf(true, t))
             && (!s.refine ==> MadeFor(true, s.tbls, t))
             && TokensCoded(CodesOf(true, t), TokensOfDc(s, mcus))
             && Holds(input, StartAt(start), CodesOf(true, t), DcSegs(s, mcus), 0)
    ensures ImageApprox(order, image, got, MarkDc(index, pos, s.al))
  {
    hide BlocksApprox, McusOf, DcScanOk, TokensOfDc, DcSegs, MadeFor, TokensCoded, Holds, Wanted, Complete, GoodTables,
        WantDc;
    ApproxShape(order, image, had, pos);
    SameLayout(index, image, had, layout);
    var values := ReadDcScan(s, index, layout, input, start, waits, t, had, image);
    ghost var want := WantDc(s, image, had);
    got := StoreDc(index, layout, values, had, want);
    DcScanApprox(s, order, index, image, had, pos, got);
  }
}
