// The coding interval of T.81 sections D.1 and D.2 with unbounded integers: what
// arith_encode and arith_decode both have to track, and the number that a
// finished byte stream denotes. The registers of the two coders are related to
// this in ArithEncoder and ArithDecoder.
module ArithInterval {
  import opened Bytes
  import opened Aritab

  // [low, low + range) at a scale of 2^(16 + shifts).
  datatype Interval = Interval(low: nat, range: nat, shifts: nat)

  // One call arith_encode(st, bit), with the bin given by its address.
  datatype Decision = Decision(bin: nat, bit: int)

  datatype State = State(iv: Interval, stats: seq<int>)

  const FULL: Interval := Interval(0, 0x1_0000, 0)

  predicate GoodStats(stats: seq<int>) {
    forall i :: 0 <= i < |stats| ==> IsBin(stats[i])
  }

  predicate Normal(iv: Interval) {
    0x8000 <= iv.range <= 0x1_0000
  }

  predicate GoodState(s: State) {
    Normal(s.iv) && GoodStats(s.stats)
  }

  predicate GoodDecision(d: Decision, bins: nat) {
    d.bin < bins && 0 <= d.bit <= 1
  }

  predicate GoodDecisions(ds: seq<Decision>, bins: nat) {
    forall i :: 0 <= i < |ds| ==> GoodDecision(ds[i], bins)
  }

  // The same interval at twice the scale.
  function Double(iv: Interval): Interval {
    Interval(2 * iv.low, 2 * iv.range, iv.shifts + 1)
  }

  // Double the interval until its range is at least 0x8000.
  function Renorm(iv: Interval): (r: Interval)
    requires 0 < iv.range <= 0x1_0000
    ensures Normal(r) && r.shifts >= iv.shifts
    decreases 0x1_0000 - iv.range
  {
    if iv.range >= 0x8000 then iv
    else Renorm(Double(iv))
  }

  // The MPS gets the lower part range - Qe and the LPS the upper part Qe, except
  // that the two are exchanged when the lower part is the smaller one.
  function Lower(iv: Interval, qe: nat): Interval
    requires qe < iv.range
  {
    Interval(iv.low, iv.range - qe, iv.shifts)
  }

  function Upper(iv: Interval, qe: nat): Interval
    requires qe < iv.range
  {
    Interval(iv.low + (iv.range - qe), qe, iv.shifts)
  }

  function Part(iv: Interval, qe: nat, lps: bool): (r: Interval)
    requires Normal(iv) && 0 < qe < 0x8000
    ensures 0 < r.range <= 0x1_0000
  {
    if lps == (iv.range - qe < qe) then Lower(iv, qe) else Upper(iv, qe)
  }

  // Coding one decision. The estimate moves only when a renormalisation is due.
  function Code(t: Table, s: State, d: Decision): (r: State)
    requires GoodState(s) && GoodDecision(d, |s.stats|)
    ensures GoodState(r) && |r.stats| == |s.stats|
  {
    var sv := s.stats[d.bin];
    var e: Entry := t[sv % 0x80];
    var lps := d.bit != Mps(sv);
    var part := Part(s.iv, Qe(e), lps);
    var sv' := if part.range >= 0x8000 then sv else Estimate(sv, if lps then Nl(e) else Nm(e));
    State(Renorm(part), s.stats[d.bin := sv'])
  }

  function Run(t: Table, s: State, ds: seq<Decision>): (r: State)
    requires GoodState(s) && GoodDecisions(ds, |s.stats|)
    ensures GoodState(r) && |r.stats| == |s.stats|
  {
    if ds == [] then s else Code(t, Run(t, s, ds[..|ds| - 1]), ds[|ds| - 1])
  }

  lemma RunSnoc(t: Table, s: State, ds: seq<Decision>, d: Decision)
    requires GoodState(s) && GoodDecisions(ds, |s.stats|) && GoodDecision(d, |s.stats|)
    ensures GoodDecisions(ds + [d], |s.stats|)
    ensures Run(t, s, ds + [d]) == Code(t, Run(t, s, ds), d)
  {
    assert (ds + [d])[..|ds|] == ds;
  }

  lemma {:induction false} RunConcat(t: Table, s: State, ds: seq<Decision>, es: seq<Decision>)
    requires GoodState(s) && GoodDecisions(ds, |s.stats|) && GoodDecisions(es, |s.stats|)
    ensures GoodDecisions(ds + es, |s.stats|)
    ensures Run(t, s, ds + es) == Run(t, Run(t, s, ds), es)
    decreases |es|
  {
    if es == [] {
      assert ds + es == ds;
    } else {
      var fs, e := es[..|es| - 1], es[|es| - 1];
      RunConcat(t, s, ds, fs);
      RunSnoc(t, s, ds + fs, e);
      assert ds + es == (ds + fs) + [e];
    }
  }

  // ---- Numbers inside an interval -----------------------------------------------

  // x, read as a number of p bits after the binary point, lies in the interval.
  predicate In(x: nat, p: nat, iv: Interval) {
    && p >= 16 + iv.shifts
    && var w := Pow2(p - 16 - iv.shifts);
       iv.low * w <= x < (iv.low + iv.range) * w
  }

  lemma InDouble(x: nat, p: nat, iv: Interval)
    requires p > 16 + iv.shifts
    ensures In(x, p, iv) <==> In(x, p, Double(iv))
  {
    var w := Pow2(p - 16 - iv.shifts - 1);
    assert (2 * iv.low) * w == iv.low * (2 * w);
    assert (2 * iv.low + 2 * iv.range) * w == (iv.low + iv.range) * (2 * w);
  }

  lemma {:induction false} InRenorm(x: nat, p: nat, iv: Interval)
    requires 0 < iv.range <= 0x1_0000
    requires p >= 16 + Renorm(iv).shifts
    ensures In(x, p, iv) <==> In(x, p, Renorm(iv))
    decreases 0x1_0000 - iv.range
  {
    if iv.range < 0x8000 {
      InDouble(x, p, iv);
      InRenorm(x, p, Double(iv));
    }
  }

  lemma MulMono(a: nat, b: nat, w: nat)
    requires a <= b
    ensures a * w <= b * w
  {
  }

  // The parts of an interval tile it: x is in exactly one of them.
  lemma InParts(x: nat, p: nat, iv: Interval, qe: nat)
    requires qe < iv.range
    ensures In(x, p, iv) <==> In(x, p, Lower(iv, qe)) || In(x, p, Upper(iv, qe))
    ensures !(In(x, p, Lower(iv, qe)) && In(x, p, Upper(iv, qe)))
  {
    if p >= 16 + iv.shifts {
      var w := Pow2(p - 16 - iv.shifts);
      var mid := iv.low + (iv.range - qe);
      MulMono(iv.low, mid, w);
      MulMono(mid, iv.low + iv.range, w);
    }
  }

  // Intervals only shrink, and the two bits a bin can code have disjoint intervals.
  lemma InCode(t: Table, s: State, d: Decision, x: nat, p: nat)
    requires GoodState(s) && GoodDecision(d, |s.stats|)
    requires In(x, p, Code(t, s, d).iv)
    ensures In(x, p, s.iv)
  {
    var e: Entry := t[s.stats[d.bin] % 0x80];
    var part := Part(s.iv, Qe(e), d.bit != Mps(s.stats[d.bin]));
    InRenorm(x, p, part);
    InParts(x, p, s.iv, Qe(e));
  }

  lemma BitIsDetermined(t: Table, s: State, d: Decision, d': Decision, x: nat, p: nat)
    requires GoodState(s) && GoodDecision(d, |s.stats|) && GoodDecision(d', |s.stats|) && d.bin == d'.bin
    requires In(x, p, Code(t, s, d).iv) && In(x, p, Code(t, s, d').iv)
    ensures d == d'
  {
    var sv := s.stats[d.bin];
    var e: Entry := t[sv % 0x80];
    InRenorm(x, p, Part(s.iv, Qe(e), d.bit != Mps(sv)));
    InRenorm(x, p, Part(s.iv, Qe(e), d'.bit != Mps(sv)));
    InParts(x, p, s.iv, Qe(e));
  }

  lemma {:induction false} InRun(t: Table, s: State, ds: seq<Decision>, x: nat, p: nat)
    requires GoodState(s) && GoodDecisions(ds, |s.stats|)
    requires In(x, p, Run(t, s, ds).iv)
    ensures In(x, p, s.iv)
    decreases |ds|
  {
    if ds != [] {
      var es := ds[..|ds| - 1];
      InCode(t, Run(t, s, es), ds[|ds| - 1], x, p);
      InRun(t, s, es, x, p);
    }
  }

  // No interval reaches past the top of the number range: an encoder can only
  // carry into a digit it has already produced.
  predicate BelowTop(iv: Interval) {
    iv.low + iv.range <= Pow2(16 + iv.shifts)
  }

  lemma {:induction false} RenormBelowTop(iv: Interval)
    requires 0 < iv.range <= 0x1_0000 && BelowTop(iv)
    ensures BelowTop(Renorm(iv))
    decreases 0x1_0000 - iv.range
  {
    if iv.range < 0x8000 { RenormBelowTop(Double(iv)); }
  }

  lemma {:induction false} RunBelowTop(t: Table, s: State, ds: seq<Decision>)
    requires GoodState(s) && GoodDecisions(ds, |s.stats|)
    requires BelowTop(s.iv)
    ensures BelowTop(Run(t, s, ds).iv)
    decreases |ds|
  {
    if ds != [] {
      var es, d := ds[..|ds| - 1], ds[|ds| - 1];
      RunBelowTop(t, s, es);
      var m := Run(t, s, es);
      var e: Entry := t[m.stats[d.bin] % 0x80];
      RenormBelowTop(Part(m.iv, Qe(e), d.bit != Mps(m.stats[d.bin])));
    }
  }

  lemma RunBelowTop0(t: Table, s: State, ds: seq<Decision>)
    requires GoodState(s) && GoodDecisions(ds, |s.stats|) && s.iv == FULL
    ensures BelowTop(Run(t, s, ds).iv)
  {
    Pow2Table();
    RunBelowTop(t, s, ds);
  }

  // ---- The number a data byte stream denotes --------------------------------------

  // A decoder that runs out of data reads zeros for ever.
  function DataByte(data: seq<byte>, i: nat): byte {
    if i < |data| then data[i] else 0
  }

  function Window(data: seq<byte>, m: nat): nat {
    if m == 0 then 0 else 256 * Window(data, m - 1) + DataByte(data, m - 1)
  }

  lemma {:induction false} WindowIsValue(data: seq<byte>, m: nat)
    requires m <= |data|
    ensures Window(data, m) == Value(data[..m])
  {
    if m != 0 {
      WindowIsValue(data, m - 1);
      assert data[..m] == data[..m - 1] + [data[m - 1]];
      ValueSnoc(data[..m - 1], data[m - 1]);
    }
  }

  // Dropping zero bytes from the end does not change the number.
  lemma {:induction false} TrailingZerosDoNotMatter(data: seq<byte>, k: nat, m: nat)
    ensures Window(data + Repeat(0, k), m) == Window(data, m)
  {
    if m != 0 { TrailingZerosDoNotMatter(data, k, m - 1); }
  }

  // The stream, as a number in [0, 1), lies in the interval.
  predicate Contains(iv: Interval, data: seq<byte>) {
    var m := iv.shifts + 3;
    In(Window(data, m), 8 * m, iv)
  }

  lemma InNextByte(iv: Interval, data: seq<byte>, m: nat)
    requires 8 * m >= 16 + iv.shifts
    ensures In(Window(data, m), 8 * m, iv) <==> In(Window(data, m + 1), 8 * (m + 1), iv)
  {
    var k := 8 * m - 16 - iv.shifts;
    var w, x := Pow2(k), Window(data, m);
    Pow2Table();
    Pow2Add(k, 8);
    assert 8 * (m + 1) - 16 - iv.shifts == k + 8;
    assert iv.low * (w * 256) == (iv.low * w) * 256;
    assert (iv.low + iv.range) * (w * 256) == ((iv.low + iv.range) * w) * 256;
  }

  // It does not matter how many bytes of the stream are looked at.
  lemma {:induction false} InAnyWindow(iv: Interval, data: seq<byte>, m: nat, n: nat)
    requires 8 * m >= 16 + iv.shifts && 8 * n >= 16 + iv.shifts
    ensures In(Window(data, m), 8 * m, iv) <==> In(Window(data, n), 8 * n, iv)
    decreases if m < n then n - m else m - n
  {
    if m < n {
      InNextByte(iv, data, m);
      InAnyWindow(iv, data, m + 1, n);
    } else if n < m {
      InNextByte(iv, data, n);
      InAnyWindow(iv, data, m, n + 1);
    }
  }

  // The separation property of the code: two decision sequences over the same
  // bins whose intervals share a stream are equal.
  predicate SameBins(ds: seq<Decision>, es: seq<Decision>) {
    |ds| == |es| && forall i :: 0 <= i < |ds| ==> ds[i].bin == es[i].bin
  }

  lemma {:induction false} StreamDeterminesBits(t: Table, s: State, ds: seq<Decision>, es: seq<Decision>,
      data: seq<byte>)
    requires GoodState(s) && GoodDecisions(ds, |s.stats|) && GoodDecisions(es, |s.stats|)
    requires SameBins(ds, es)
    requires Contains(Run(t, s, ds).iv, data) && Contains(Run(t, s, es).iv, data)
    ensures ds == es
  {
    var m := Run(t, s, ds).iv.shifts + Run(t, s, es).iv.shifts + 3;
    InAnyWindow(Run(t, s, ds).iv, data, Run(t, s, ds).iv.shifts + 3, m);
    InAnyWindow(Run(t, s, es).iv, data, Run(t, s, es).iv.shifts + 3, m);
    NumberDeterminesBits(t, s, ds, es, Window(data, m), 8 * m);
  }

  lemma {:induction false} NumberDeterminesBits(t: Table, s: State, ds: seq<Decision>, es: seq<Decision>, x: nat,
      p: nat)
    requires GoodState(s) && GoodDecisions(ds, |s.stats|) && GoodDecisions(es, |s.stats|)
    requires SameBins(ds, es)
    requires In(x, p, Run(t, s, ds).iv) && In(x, p, Run(t, s, es).iv)
    ensures ds == es
    decreases |ds|
  {
    if ds != [] {
      var ds', es' := ds[..|ds| - 1], es[..|es| - 1];
      var d, e := ds[|ds| - 1], es[|es| - 1];
      InCode(t, Run(t, s, ds'), d, x, p);
      InCode(t, Run(t, s, es'), e, x, p);
      NumberDeterminesBits(t, s, ds', es', x, p);
      BitIsDetermined(t, Run(t, s, ds'), d, e, x, p);
      assert ds == ds' + [d] && es == es' + [e];
    }
  }
}
