// decode_mcu_DC_first and decode_mcu_DC_refine of jdhuff.c.
module ProgDcDecoder {
  import opened Coefs
  import opened Division
  import opened Bytes
  import opened HuffGen
  import opened HuffCode
  import opened HuffDerived
  import opened HuffBitReader
  import opened HuffBlock
  import opened HuffSeqDecoder
  import opened ProgRefine
  import opened ProgBlocks
  import opened ProgAcFirstDecoder
  import opened ProgDc

  predicate DcDecoders(ds: seq<DTbl>) {
    forall i :: 0 <= i < |ds| ==> DecodesWith(ds[i].pub, ds[i]) && DcTable(ds[i].pub)
  }

  function TablesBehind(ds: seq<DTbl>): (ts: seq<HuffTbl>)
    requires DcDecoders(ds)
    ensures |ts| == |ds| && forall i :: 0 <= i < |ts| ==> ts[i] == ds[i].pub && WellFormed(ts[i])
  {
    seq(|ds|, i requires 0 <= i < |ds| => ds[i].pub)
  }

  function MoreValues(vs: seq<int>, p: Option<Parsed<DcValues>>): Option<Parsed<DcValues>> {
    match p
    case None => None
    case Some(Parsed(DcValues(ws, last), rest)) => Some(Parsed(DcValues(vs + ws, last), rest))
  }

  lemma MoreTwice(a: seq<int>, b: seq<int>, p: Option<Parsed<DcValues>>)
    ensures MoreValues(a, MoreValues(b, p)) == MoreValues(a + b, p)
    ensures MoreValues([], p) == p
  {
    if p.Some? {
      assert a + (b + p.value.value.values) == (a + b) + p.value.value.values;
      assert [] + p.value.value.values == p.value.value.values;
    }
  }

  // One difference further.
  lemma OneMore(ts: seq<HuffTbl>, s: seq<bool>, cis: seq<nat>, last: seq<int>, did: seq<int>)
    requires (forall i :: 0 <= i < |ts| ==> WellFormed(ts[i])) && |last| == |ts|
        && (forall i :: 0 <= i < |cis| ==> cis[i] < |ts|) && cis != []
    ensures var p := ReadDc(ts[cis[0]], s);
            MoreValues(did, ReadDcs(ts, s, cis, last)) ==
            if p.None? then None
            else var v := last[cis[0]] + p.value.value;
            MoreValues(did + [v], ReadDcs(ts, p.value.rest, cis[1..], last[cis[0] := v]))
  {
    hide ReadDc, WellFormed;
    var p := ReadDc(ts[cis[0]], s);
    if p.Some? {
      var v := last[cis[0]] + p.value.value;
      MoreTwice(did, [v], ReadDcs(ts, p.value.rest, cis[1..], last[cis[0] := v]));
    }
  }

  // How far an MCU has been read.
  predicate DcTrack(whole: Option<Parsed<DcValues>>, did: seq<int>, left: Option<Parsed<DcValues>>, dry: bool) {
    whole == if dry then None else MoreValues(did, left)
  }

  // decode_mcu_DC_first: dcs stands for the DC coefficients
  // of the blocks of the MCU, cis for the components they belong to.
  method DecodeDcFirst(br: BitReader, ds: seq<DTbl>, cis: seq<nat>, last0: seq<int>, dcs: array<int>, al: nat)
    returns (ok: bool, last: seq<int>)
    requires br.Valid() && DcDecoders(ds) && |last0| == |ds| && (forall i :: 0 <= i < |cis| ==> cis[i] < |ds|)
        && dcs.Length == |cis|
    modifies br, dcs
    ensures br.Valid() && br.Steady(old(br.Ahead()), ok) && (old(br.insufficient) ==> br.insufficient)
    ensures ok && !old(br.insufficient) ==>
              match ReadDcs(TablesBehind(ds), old(br.Rest()), cis, last0)
              case None => br.insufficient
              case Some(Parsed(DcValues(vs, l), rest)) =>
                !br.insufficient && br.Rest() == rest && last == l && |vs| == |cis|
                    && forall i :: 0 <= i < |cis| ==> dcs[i] == Scaled(vs[i], al)
  {
    hide DecodesWith, DcTable, br.Ahead, Coming, ReadDc, ReadDcs, WellFormed, ToJcoef, GoodState;
    ghost var ts, s, dry0 := TablesBehind(ds), br.Rest(), br.insufficient;
    ghost var whole := ReadDcs(ts, s, cis, last0);
    ghost var did: seq<int> := [];
    ghost var now := cis;
    last, ok := last0, true;
    MoreTwice([], [], whole);
    for i := 0 to |cis|
      invariant br.Valid() && br.Steady(old(br.Ahead()), true) && (old(br.insufficient) ==> br.insufficient)
      invariant |last| == |ds| && now == cis[i..] && |did| == i
      invariant !dry0 ==> DcTrack(whole, did, ReadDcs(ts, br.Rest(), now, last), br.insufficient)
      invariant !dry0 && !br.insufficient ==> forall j :: 0 <= j < i ==> dcs[j] == Scaled(did[j], al)
    {
      ghost var rest, dry := br.Rest(), br.insufficient;
      var s;
      ok, s := ReadDiff(br, ds[cis[i]]);
      if !ok {
        return;
      }
      OneMore(ts, rest, now, last, did);
      s := last[cis[i]] + s;
      last := last[cis[i] := s];
      dcs[i] := ToJcoef(s * Pow2(al));
      did := did + [s];
      now := now[1..];
    }
    ok := true;
    NoneLeft(ts, br.Rest(), last, did);
  }

  lemma NoneLeft(ts: seq<HuffTbl>, s: seq<bool>, last: seq<int>, did: seq<int>)
    requires (forall i :: 0 <= i < |ts| ==> WellFormed(ts[i])) && |last| == |ts|
    ensures MoreValues(did, ReadDcs(ts, s, [], last)) == Some(Parsed(DcValues(did, last), s))
  {
    hide WellFormed;
    assert did + [] == did;
  }

  // "|= p1"
  function SetBit(c: int, al: nat, bit: bool): int {
    if bit && BitClear(c, al) then c + Pow2(al) else c
  }

  // Repeating the assignment later is safe.
  lemma SetTwice(c: int, al: nat, bit: bool)
    ensures SetBit(SetBit(c, al, bit), al, bit) == SetBit(c, al, bit)
  {
    if bit && BitClear(c, al) { AddMultiple(c, Pow2(al), 1); }
  }

  // decode_mcu_DC_refine. An interrupted call leaves
  // values that the same bits lead to the same end.
  method DecodeDcRefine(br: BitReader, dcs: array<int>, al: nat) returns (ok: bool)
    requires br.Valid()
    modifies br, dcs
    ensures br.Valid() && br.Steady(old(br.Ahead()), ok) && (old(br.insufficient) ==> br.insufficient)
    ensures !old(br.insufficient) ==>
              forall i :: 0 <= i < dcs.Length && i < |old(br.Rest())| ==>
                var b := old(br.Rest())[i];
                SetBit(dcs[i], al, b) == SetBit(old(dcs[i]), al, b) && (ok ==> dcs[i] == SetBit(old(dcs[i]), al, b))
    ensures ok && !old(br.insufficient) ==>
              if dcs.Length <= |old(br.Rest())| then !br.insufficient
                  && br.Rest() == old(br.Rest())[dcs.Length..] else br.insufficient
  {
    hide Coming, SetBit, br.Ahead, GoodState, TakeBits;
    ghost var s, dry0 := br.Rest(), br.insufficient;
    ok := true;
    for i := 0 to dcs.Length
      invariant br.Valid() && br.Steady(old(br.Ahead()), true) && (old(br.insufficient) ==> br.insufficient)
      invariant !dry0 ==> if i <= |s| then !br.insufficient && br.Rest() == s[i..] else br.insufficient
      invariant !dry0 ==> forall j :: 0 <= j < i && j < |s| ==> dcs[j] == SetBit(old(dcs[j]), al, s[j])
      invariant forall j :: i <= j < dcs.Length ==> dcs[j] == old(dcs[j])
    {
      ghost var rest := br.Rest();
      var x;
      ok, x := br.Get(1);
      if !ok {
        forall j | 0 <= j < i && j < |s|
            ensures SetBit(SetBit(old(dcs[j]), al, s[j]), al, s[j]) == SetBit(old(dcs[j]), al, s[j]) {
          SetTwice(old(dcs[j]), al, s[j]);
        }
        return;
      }
      OneBitTaken(rest);
      dcs[i] := SetBit(dcs[i], al, x == 1);
    }
    ok := true;
    forall j | 0 <= j < dcs.Length
        && j < |s| ensures SetBit(SetBit(old(dcs[j]), al, s[j]), al, s[j]) == SetBit(old(dcs[j]), al, s[j]) {
      SetTwice(old(dcs[j]), al, s[j]);
    }
  }

  lemma OneBitTaken(s: seq<bool>)
    ensures if s == [] then TakeBits(s, 1) == None else TakeBits(s, 1) == Some(Decoded(if s[0] then 1 else 0, s[1..]))
  {
    if s != [] {
      BitTaken(s[0], s[1..]);
      assert [s[0]] + s[1..] == s;
    }
  }
}
