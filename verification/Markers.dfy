// Marker segments as they stand in the file, section B.2 of ITU-T T.81.
module Markers {
  import opened Bytes
  import opened NaturalOrders
  import opened HuffGen

  const M_SOF0 := 0xC0
  const M_SOF1 := 0xC1
  const M_SOF2 := 0xC2
  const M_DHT := 0xC4
  const M_SOF9 := 0xC9
  const M_SOF10 := 0xCA
  const M_DAC := 0xCC
  const M_SOS := 0xDA
  const M_DQT := 0xDB
  const M_DRI := 0xDD

  const NUM_QUANT_TBLS := 4
  const NUM_HUFFMAN_TBLS := 4
  const NUM_ARITH_TBLS := 16
  const DCTSIZE2 := 64
  const MAX_COMPS_IN_SCAN := 4

  function Word(hi: nat, lo: nat): nat { 256 * hi + lo }

  // "(value >> 8) & 0xFF" and "value & 0xFF"
  function TwoBytes(v: nat): (b: seq<byte>)
    ensures |b| == 2 && (v < 0x1_0000 ==> Word(b[0], b[1]) == v)
  {
    [v / 256 % 256, v % 256]
  }

  // The length field, which counts itself, and the parameters.
  function Segment(payload: seq<byte>): (s: seq<byte>)
    ensures |s| == |payload| + 2
  {
    TwoBytes(|payload| + 2) + payload
  }

  // ---- DQT ---------------------------------------------------------------------------------------------------------

  // One table: its number, whether its values take two bytes, and the values in the order
  // they are sent.
  datatype QuantEntry = QuantEntry(index: nat, prec: nat, vals: seq<nat>)

  predicate GoodQuantEntry(e: QuantEntry) {
    && e.index < NUM_QUANT_TBLS && e.prec <= 1 && 0 < |e.vals| <= DCTSIZE2
    && forall i :: 0 <= i < |e.vals| ==> e.vals[i] < if e.prec == 1 then 0x1_0000 else 0x100
  }

  function ValueBytes(prec: nat, vals: seq<nat>): (b: seq<byte>)
    ensures |b| == (prec + 1) * |vals| || prec > 1
  {
    if vals == [] then []
    else (if prec == 1 then TwoBytes(vals[0]) else [vals[0] % 256]) + ValueBytes(prec, vals[1..])
  }

  function QuantBytes(e: QuantEntry): (b: seq<byte>)
    requires GoodQuantEntry(e)
  {
    [e.index + 16 * e.prec] + ValueBytes(e.prec, e.vals)
  }

  // The side of the block that the reader takes a table of so many values for.
  function SideFor(count: nat): (n: nat)
    ensures Side(n)
  {
    match count
    case 4 => 2
    case 9 => 3
    case 16 => 4
    case 25 => 5
    case 36 => 6
    case 49 => 7
    case _ => 8
  }

  // A table filled in the order the values come.
  function Filled(base: seq<nat>, n: nat, vals: seq<nat>): (t: seq<nat>)
    requires |base| == DCTSIZE2
    ensures |t| == DCTSIZE2
  {
    if vals == [] then base else Filled(base, n, vals[..|vals| - 1])[Entry(n, |vals| - 1) := vals[|vals| - 1]]
  }

  function AllOnes(): (t: seq<nat>)
    ensures |t| == DCTSIZE2 && forall i :: 0 <= i < DCTSIZE2 ==> t[i] == 1
  {
    seq(DCTSIZE2, _ => 1)
  }

  // Places that come later in the order are not touched yet, and those that have come
  // keep the value of a table the values were taken from.
  lemma {:induction false} FilledAt(base: seq<nat>, n: nat, vals: seq<nat>, q: seq<nat>, p: nat)
    requires |base| == DCTSIZE2 && |q| == DCTSIZE2 && p < DCTSIZE2
    requires forall i :: 0 <= i < |vals| ==> vals[i] == q[Entry(n, i)]
    ensures (exists i :: 0 <= i < |vals| && Entry(n, i) == p) ==> Filled(base, n, vals)[p] == q[p]
    ensures (forall i :: 0 <= i < |vals| ==> Entry(n, i) != p) ==> Filled(base, n, vals)[p] == base[p]
    decreases |vals|
  {
    hide Entry;
    if vals != [] { FilledAt(base, n, vals[..|vals| - 1], q, p); }
  }

  // ---- DHT ---------------------------------------------------------------------------------------------------------

  // The number of codes of each length from 1 to 16.
  function Codes(bits: seq<nat>): (n: nat)
    requires |bits| == 17
  {
    CodesUpTo(bits, 16)
  }

  function CodesUpTo(bits: seq<nat>, l: nat): (n: nat)
    requires |bits| == 17 && l <= 16
  {
    if l == 0 then 0 else CodesUpTo(bits, l - 1) + bits[l]
  }

  // A table that can be sent.
  predicate Sendable(t: HuffTbl) {
    && |t.bits| == 17 && |t.huffval| == 256
    && (forall l :: 1 <= l <= 16 ==> t.bits[l] < 256) && (forall i :: 0 <= i < 256 ==> t.huffval[i] < 256)
    && Codes(t.bits) <= 256
  }

  function HuffBytes(index: nat, isAC: bool, t: HuffTbl): (b: seq<byte>)
    requires Sendable(t) && index < NUM_HUFFMAN_TBLS
    ensures |b| == 17 + Codes(t.bits)
  {
    [index + if isAC then 0x10 else 0] + Plain(t.bits[1..]) + Plain(t.huffval[..Codes(t.bits)])
  }

  function Plain(v: seq<nat>): (b: seq<byte>)
    requires forall i :: 0 <= i < |v| ==> v[i] < 256
    ensures |b| == |v| && forall i :: 0 <= i < |v| ==> b[i] == v[i]
  {
    seq(|v|, i requires 0 <= i < |v| => v[i])
  }

  // ---- DAC ---------------------------------------------------------------------------------------------------------

  // The conditioning of the arithmetic coder.
  datatype Conditioning = Conditioning(dcL: seq<nat>, dcU: seq<nat>, acK: seq<nat>)

  predicate GoodConditioning(c: Conditioning) {
    && |c.dcL| == |c.dcU| == |c.acK| == NUM_ARITH_TBLS
    && forall i :: 0 <= i < NUM_ARITH_TBLS ==> c.dcL[i] < 16 && c.dcU[i] < 16 && c.acK[i] < 256
  }

  predicate Flags(f: seq<bool>) { |f| == NUM_ARITH_TBLS }

  function InTable(dc: seq<bool>, ac: seq<bool>, i: nat): (n: nat)
    requires Flags(dc) && Flags(ac) && i < NUM_ARITH_TBLS
    ensures n <= 2
  {
    (if dc[i] then 1 else 0) + if ac[i] then 1 else 0
  }

  function Entries(dc: seq<bool>, ac: seq<bool>, i: nat): (n: nat)
    requires Flags(dc) && Flags(ac) && i <= NUM_ARITH_TBLS
    ensures n <= 2 * (NUM_ARITH_TBLS - i)
    decreases NUM_ARITH_TBLS - i
  {
    if i == NUM_ARITH_TBLS then 0 else InTable(dc, ac, i) + Entries(dc, ac, i + 1)
  }

  // The entries for the tables in use, from the i-th on.
  function DacBytes(c: Conditioning, dc: seq<bool>, ac: seq<bool>, i: nat): (b: seq<byte>)
    requires GoodConditioning(c) && Flags(dc) && Flags(ac) && i <= NUM_ARITH_TBLS
    ensures |b| == 2 * Entries(dc, ac, i)
    decreases NUM_ARITH_TBLS - i
  {
    if i == NUM_ARITH_TBLS then [] else OneDac(c, dc, ac, i) + DacBytes(c, dc, ac, i + 1)
  }

  function OneDac(c: Conditioning, dc: seq<bool>, ac: seq<bool>, i: nat): (b: seq<byte>)
    requires GoodConditioning(c) && Flags(dc) && Flags(ac) && i < NUM_ARITH_TBLS
    ensures |b| == 2 * InTable(dc, ac, i)
  {
    (if dc[i] then [i, c.dcL[i] + 16 * c.dcU[i]] else []) + if ac[i] then [i + 0x10, c.acK[i]] else []
  }

  lemma DacStep(c: Conditioning, dc: seq<bool>, ac: seq<bool>, i: nat)
    requires GoodConditioning(c) && Flags(dc) && Flags(ac) && i <= NUM_ARITH_TBLS
    ensures DacBytes(c, dc, ac, i) == if i == NUM_ARITH_TBLS then []
        else OneDac(c, dc, ac, i) + DacBytes(c, dc, ac, i + 1)
  {
  }

  // What taking entries one after the other makes of the conditioning.
  datatype Taken = Taken(c: Conditioning) | BadIndex | BadValue

  predicate Sized(c: Conditioning) { |c.dcL| == |c.dcU| == |c.acK| == NUM_ARITH_TBLS }

  function TakeEntry(a: Conditioning, index: nat, val: nat): (t: Taken)
    requires Sized(a)
    ensures t.Taken? ==> Sized(t.c)
  {
    if index >= 2 * NUM_ARITH_TBLS then BadIndex
    else if index >= NUM_ARITH_TBLS then Taken(a.(acK := a.acK[index - NUM_ARITH_TBLS := val]))
    else if val % 16 > val / 16 then BadValue
    else Taken(a.(dcL := a.dcL[index := val % 16], dcU := a.dcU[index := val / 16]))
  }

  function TakeAll(a: Conditioning, s: seq<byte>): (t: Taken)
    requires Sized(a) && |s| % 2 == 0
    ensures t.Taken? ==> Sized(t.c)
    decreases |s|
  {
    if s == [] then Taken(a)
    else
      var t := TakeEntry(a, s[0], s[1]);
      if t.Taken? then TakeAll(t.c, s[2..]) else t
  }

  // The values of the tables in use from the i-th on, and the old ones of all others.
  function From(was: seq<nat>, now: seq<nat>, inUse: seq<bool>, i: nat): (r: seq<nat>)
    requires |was| == |now| == NUM_ARITH_TBLS && Flags(inUse)
    ensures |r| == NUM_ARITH_TBLS
    ensures forall t :: 0 <= t < NUM_ARITH_TBLS ==> r[t] == if t >= i && inUse[t] then now[t] else was[t]
  {
    seq(NUM_ARITH_TBLS, t requires 0 <= t < NUM_ARITH_TBLS => if t >= i && inUse[t] then now[t] else was[t])
  }

  // The tables in use from the i-th on come from c, all others stay.
  function Restored(a: Conditioning, c: Conditioning, dc: seq<bool>, ac: seq<bool>, i: nat): (r: Conditioning)
    requires Sized(a) && Sized(c) && Flags(dc) && Flags(ac)
    ensures Sized(r)
  {
    Conditioning(From(a.dcL, c.dcL, dc, i), From(a.dcU, c.dcU, dc, i), From(a.acK, c.acK, ac, i))
  }

  // No table in use has bounds the wrong way round.
  predicate Ordered(c: Conditioning, dc: seq<bool>, i: nat)
    requires Sized(c) && Flags(dc)
  {
    forall t :: i <= t < NUM_ARITH_TBLS && dc[t] ==> c.dcL[t] <= c.dcU[t]
  }

  lemma TakeTwo(a: Conditioning, index: byte, val: byte, s: seq<byte>)
    requires Sized(a) && |s| % 2 == 0
    ensures |[index, val] + s| % 2 == 0
    ensures TakeAll(a, [index, val] + s) == var t := TakeEntry(a, index, val); if t.Taken? then TakeAll(t.c, s) else t
  {
    assert ([index, val] + s)[2..] == s;
  }

  function WithTable(a: Conditioning, c: Conditioning, dc: seq<bool>, ac: seq<bool>, i: nat): (b: Conditioning)
    requires Sized(a) && Sized(c) && Flags(dc) && Flags(ac) && i < NUM_ARITH_TBLS
    ensures Sized(b)
  {
    Conditioning(if dc[i] then a.dcL[i := c.dcL[i]] else a.dcL, if dc[i] then a.dcU[i := c.dcU[i]] else a.dcU,
                 if ac[i] then a.acK[i := c.acK[i]] else a.acK)
  }

  // The entries of one table.
  lemma TakeOne(a: Conditioning, c: Conditioning, dc: seq<bool>, ac: seq<bool>, i: nat, s: seq<byte>)
    requires Sized(a) && GoodConditioning(c) && Flags(dc) && Flags(ac) && i < NUM_ARITH_TBLS && |s| % 2 == 0
    ensures |OneDac(c, dc, ac, i) + s| % 2 == 0
    ensures TakeAll(a, OneDac(c, dc, ac, i) + s) ==
              if dc[i] && c.dcL[i] > c.dcU[i] then BadValue
              else TakeAll(WithTable(a, c, dc, ac, i), s)
  {
    hide TakeAll;
    var second := if ac[i] then [(i + 0x10) as byte, c.acK[i]] else [];
    var b := if dc[i] then a.(dcL := a.dcL[i := c.dcL[i]], dcU := a.dcU[i := c.dcU[i]]) else a;
    if dc[i] {
      var val: byte := c.dcL[i] + 16 * c.dcU[i];
      assert val % 16 == c.dcL[i] && val / 16 == c.dcU[i];
      assert OneDac(c, dc, ac, i) + s == [i, val] + (second + s);
      TakeTwo(a, i, val, second + s);
    } else {
      assert OneDac(c, dc, ac, i) + s == second + s;
    }
    if ac[i] { TakeTwo(b, i + 0x10, c.acK[i], s); } else { assert second + s == s; }
  }

  lemma {:induction false} DacRestores(a: Conditioning, c: Conditioning, dc: seq<bool>, ac: seq<bool>, i: nat)
    requires Sized(a) && GoodConditioning(c) && Flags(dc) && Flags(ac) && i <= NUM_ARITH_TBLS
    ensures TakeAll(a, DacBytes(c, dc, ac, i)) == if Ordered(c, dc, i) then Taken(Restored(a, c, dc, ac, i))
        else BadValue
    decreases NUM_ARITH_TBLS - i
  {
    hide TakeAll, DacBytes, OneDac, GoodConditioning, WithTable, Ordered, Restored, Flags, InTable, Entries;
    GoodIsSized(c);
    DacStep(c, dc, ac, i);
    if i == NUM_ARITH_TBLS {
      NothingTaken(a);
      NothingRestored(a, c, dc, ac);
    } else {
      TakeOne(a, c, dc, ac, i, DacBytes(c, dc, ac, i + 1));
      RestoredStep(a, c, dc, ac, i);
      DacRestores(WithTable(a, c, dc, ac, i), c, dc, ac, i + 1);
    }
  }

  lemma RestoredStep(a: Conditioning, c: Conditioning, dc: seq<bool>, ac: seq<bool>, i: nat)
    requires Sized(a) && Sized(c) && Flags(dc) && Flags(ac) && i < NUM_ARITH_TBLS
    ensures Restored(WithTable(a, c, dc, ac, i), c, dc, ac, i + 1) == Restored(a, c, dc, ac, i)
    ensures Ordered(c, dc, i) <==> Ordered(c, dc, i + 1) && (dc[i] ==> c.dcL[i] <= c.dcU[i])
  {
  }

  lemma NothingRestored(a: Conditioning, c: Conditioning, dc: seq<bool>, ac: seq<bool>)
    requires Sized(a) && Sized(c) && Flags(dc) && Flags(ac)
    ensures Restored(a, c, dc, ac, NUM_ARITH_TBLS) == a && Ordered(c, dc, NUM_ARITH_TBLS)
  {
  }

  lemma NothingTaken(a: Conditioning)
    requires Sized(a)
    ensures TakeAll(a, []) == Taken(a)
  {
  }

  lemma GoodIsSized(c: Conditioning)
    requires GoodConditioning(c)
    ensures Sized(c)
  {
  }

  // ---- SOF and SOS -------------------------------------------------------------------------------------------------

  datatype CompSpec = CompSpec(id: nat, h: nat, v: nat, tq: nat)

  datatype Frame = Frame(precision: nat, height: nat, width: nat, comps: seq<CompSpec>)

  predicate GoodFrame(f: Frame) {
    && f.precision < 256 && f.height < 0x1_0000 && f.width < 0x1_0000 && |f.comps| < 256
    && forall i :: 0 <= i < |f.comps| ==> GoodComp(f.comps[i])
  }

  predicate GoodComp(c: CompSpec) {
    c.id < 256 && c.h < 16 && c.v < 16 && c.tq < 256
  }

  function OneComp(c: CompSpec): (b: seq<byte>)
    requires GoodComp(c)
    ensures |b| == 3
  {
    [c.id, 16 * c.h + c.v, c.tq]
  }

  function CompBytes(comps: seq<CompSpec>): (b: seq<byte>)
    requires forall i :: 0 <= i < |comps| ==> GoodComp(comps[i])
    ensures |b| == 3 * |comps|
  {
    if comps == [] then [] else OneComp(comps[0]) + CompBytes(comps[1..])
  }

  function FrameBytes(f: Frame): (b: seq<byte>)
    requires GoodFrame(f)
    ensures |b| == 6 + 3 * |f.comps|
  {
    [f.precision] + TwoBytes(f.height) + TwoBytes(f.width) + [|f.comps|] + CompBytes(f.comps)
  }

  // A scan: the components by their place in the frame with their tables, and the
  // parameters of the progression.
  datatype ScanComp = ScanComp(ci: nat, td: nat, ta: nat)

  datatype ScanHeader = ScanHeader(comps: seq<ScanComp>, ss: nat, se: nat, ah: nat, al: nat)

  predicate GoodScanHeader(s: ScanHeader, ids: seq<nat>) {
    && |s.comps| <= MAX_COMPS_IN_SCAN && s.ss < 64 && s.se < 64 && s.ah < 16 && s.al < 16
    && forall i :: 0 <= i < |s.comps| ==> GoodScanComp(s.comps[i], ids)
  }

  predicate GoodScanComp(c: ScanComp, ids: seq<nat>) {
    c.ci < |ids| && ids[c.ci] < 256 && c.td < 16 && c.ta < 16
  }

  function OneScanComp(c: ScanComp, ids: seq<nat>): (b: seq<byte>)
    requires GoodScanComp(c, ids)
    ensures |b| == 2
  {
    [ids[c.ci], 16 * c.td + c.ta]
  }

  function ScanCompBytes(comps: seq<ScanComp>, ids: seq<nat>): (b: seq<byte>)
    requires forall i :: 0 <= i < |comps| ==> GoodScanComp(comps[i], ids)
    ensures |b| == 2 * |comps|
  {
    if comps == [] then [] else OneScanComp(comps[0], ids) + ScanCompBytes(comps[1..], ids)
  }

  function ScanBytes(s: ScanHeader, ids: seq<nat>): (b: seq<byte>)
    requires GoodScanHeader(s, ids)
    ensures |b| == 4 + 2 * |s.comps|
  {
    [|s.comps|] + ScanCompBytes(s.comps, ids) + ParamBytes(s)
  }

  function ParamBytes(s: ScanHeader): (b: seq<byte>)
    requires s.ss < 64 && s.se < 64 && s.ah < 16 && s.al < 16
    ensures |b| == 3
  {
    [s.ss, s.se, 16 * s.ah + s.al]
  }

  // What the reader makes of a scan: a component goes by the first one with its number,
  // and each sets the tables of the component that was found.
  function FrameIds(f: Frame): (ids: seq<nat>)
    ensures |ids| == |f.comps| && forall i :: 0 <= i < |ids| ==> ids[i] == f.comps[i].id
  {
    seq(|f.comps|, i requires 0 <= i < |f.comps| => f.comps[i].id)
  }

  function FirstWith(ids: seq<nat>, id: nat): (i: nat)
    ensures i <= |ids| && (forall j :: 0 <= j < i ==> ids[j] != id) && (i < |ids| ==> ids[i] == id)
  {
    if ids == [] || ids[0] == id then 0 else 1 + FirstWith(ids[1..], id)
  }

  function Found(c: ScanComp, ids: seq<nat>): (i: nat)
    requires GoodScanComp(c, ids)
    ensures i <= c.ci < |ids| && ids[i] == ids[c.ci] && (forall j :: 0 <= j < i ==> ids[j] != ids[c.ci])
  {
    FirstWith(ids, ids[c.ci])
  }

  function FirstOnes(comps: seq<ScanComp>, ids: seq<nat>): (c: seq<nat>)
    requires forall i :: 0 <= i < |comps| ==> GoodScanComp(comps[i], ids)
    ensures |c| == |comps| && forall i :: 0 <= i < |c| ==> GoodScanComp(comps[i], ids) && c[i] == Found(comps[i], ids)
  {
    seq(|comps|, i requires 0 <= i < |comps| && GoodScanComp(comps[i], ids) => Found(comps[i], ids))
  }

  function DcTbls(comps: seq<ScanComp>): (t: seq<nat>)
    ensures |t| == |comps| && forall i :: 0 <= i < |t| ==> t[i] == comps[i].td
  {
    seq(|comps|, i requires 0 <= i < |comps| => comps[i].td)
  }

  function AcTbls(comps: seq<ScanComp>): (t: seq<nat>)
    ensures |t| == |comps| && forall i :: 0 <= i < |t| ==> t[i] == comps[i].ta
  {
    seq(|comps|, i requires 0 <= i < |comps| => comps[i].ta)
  }

  function Assigned(was: seq<nat>, places: seq<nat>, vals: seq<nat>): (t: seq<nat>)
    requires |places| == |vals| && forall i :: 0 <= i < |places| ==> places[i] < |was|
    ensures |t| == |was|
  {
    if places == [] then was
    else Assigned(was, places[..|places| - 1], vals[..|vals| - 1])[places[|places| - 1] := vals[|vals| - 1]]
  }

  // What was assigned last to a place is there.
  lemma {:induction false} AssignedAt(was: seq<nat>, places: seq<nat>, vals: seq<nat>, p: nat)
    requires |places| == |vals| && p < |was| && forall i :: 0 <= i < |places| ==> places[i] < |was|
    ensures if p in places then exists i ::
        0 <= i < |places| && places[i] == p && Assigned(was, places, vals)[p] == vals[i]
            else Assigned(was, places, vals)[p] == was[p]
    decreases |places|
  {
    if places != [] {
      var last := |places| - 1;
      if places[last] != p {
        AssignedAt(was, places[..last], vals[..last], p);
        if p in places[..last] {
          var i :| 0 <= i < last && places[..last][i] == p
              && Assigned(was, places[..last], vals[..last])[p] == vals[..last][i];
          assert places[i] == p && Assigned(was, places, vals)[p] == vals[i];
        } else {
          assert places == places[..last] + [places[last]];
        }
      }
    }
  }

  lemma AssignedSnoc(was: seq<nat>, places: seq<nat>, vals: seq<nat>, p: nat, v: nat)
    requires |places| == |vals| && p < |was| && forall i :: 0 <= i < |places| ==> places[i] < |was|
    ensures Assigned(was, places + [p], vals + [v]) == Assigned(was, places, vals)[p := v]
  {
    assert (places + [p])[..|places|] == places && (vals + [v])[..|vals|] == vals;
  }
}
