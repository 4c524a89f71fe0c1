// jdarith.c: the arithmetic decoder with its floating cut-point register, proved
// against the same interval as the encoder, for every input stream.
module ArithDecoder {
  import opened Bytes
  import opened Aritab
  import opened ArithAdapt
  import opened ArithInterval
  import opened EntropySegment
  import opened MarkerSearch

  // ---- The register invariant -----------------------------------------------------

  // m bytes are in; what they say beyond the low end of the interval is in c, with
  // ct bits still below the cut-point.
  predicate Tracks(iv: Interval, data: seq<byte>, m: nat, c: nat, a: nat, ct: int) {
    && 0 <= ct <= 7
    && iv.range == a
    && 8 * m == 16 + iv.shifts + ct
    && Window(data, m) == iv.low * Pow2(ct) + c
    && c < a * Pow2(ct)
  }

  // C takes up 23 bits at most, so that an INT32 holds it also when a byte is shifted in.
  lemma TracksFits(iv: Interval, data: seq<byte>, m: nat, c: nat, a: nat, ct: int)
    requires Tracks(iv, data, m, c, a, ct) && a <= 0x1_0000
    ensures c < REGISTER_MAX
  {
    Pow2Mono(ct, 7);
    Pow2Table();
    assert Pow2(7) == 128;
    MulMono(a, 0x1_0000, Pow2(ct));
  }

  const REGISTER_MAX := 0x80_0000

  lemma TracksMeans(iv: Interval, data: seq<byte>, m: nat, c: nat, a: nat, ct: int)
    requires Tracks(iv, data, m, c, a, ct)
    ensures 0 <= ct <= 7 && iv.range == a
  {
  }

  lemma NextWindow(data: seq<byte>, m: nat)
    ensures Window(data, m + 1) == 256 * Window(data, m) + DataByte(data, m)
  {
  }

  lemma TracksStart(data: seq<byte>)
    ensures Tracks(FULL, data, 2, Window(data, 2), 0x1_0000, 0)
  {
    assert Window(data, 2) == 256 * Window(data, 1) + DataByte(data, 1);
    assert Window(data, 1) == 256 * Window(data, 0) + DataByte(data, 0);
  }

  lemma TracksShift(iv: Interval, data: seq<byte>, m: nat, c: nat, a: nat, ct: int)
    requires Tracks(iv, data, m, c, a, ct) && ct > 0
    ensures Tracks(Double(iv), data, m, c, 2 * a, ct - 1)
  {
    var w := Pow2(ct - 1);
    assert iv.low * (2 * w) == (2 * iv.low) * w && a * (2 * w) == (2 * a) * w;
  }

  lemma TracksFetch(iv: Interval, data: seq<byte>, m: nat, c: nat, a: nat)
    requires Tracks(iv, data, m, c, a, 0)
    ensures Tracks(Double(iv), data, m + 1, 256 * c + DataByte(data, m), 2 * a, 7)
  {
    Pow2Table();
    assert Pow2(8) == 2 * Pow2(7);
  }

  // "if (c >= temp)" picks the part the stream is in.
  lemma TracksUpper(iv: Interval, data: seq<byte>, m: nat, c: nat, a: nat, ct: int, qe: nat)
    requires Tracks(iv, data, m, c, a, ct) && 0 < qe < a
    requires c >= (a - qe) * Pow2(ct)
    ensures Tracks(Upper(iv, qe), data, m, c - (a - qe) * Pow2(ct), qe, ct)
  {
    Distribute(a - qe, qe, Pow2(ct));
    Distribute(iv.low, a - qe, Pow2(ct));
  }

  lemma TracksLower(iv: Interval, data: seq<byte>, m: nat, c: nat, a: nat, ct: int, qe: nat)
    requires Tracks(iv, data, m, c, a, ct) && 0 < qe < a
    requires c < (a - qe) * Pow2(ct)
    ensures Tracks(Lower(iv, qe), data, m, c, a - qe, ct)
  {
  }

  lemma TracksPart(iv: Interval, data: seq<byte>, m: nat, c: nat, a: nat, ct: int, qe: nat)
    requires Tracks(iv, data, m, c, a, ct) && 0 < qe < a
    ensures var temp := (a - qe) * Pow2(ct);
            if c >= temp then Tracks(Upper(iv, qe), data, m, c - temp, qe, ct)
            else Tracks(Lower(iv, qe), data, m, c, a - qe, ct)
  {
    if c >= (a - qe) * Pow2(ct) {
      TracksUpper(iv, data, m, c, a, ct, qe);
    } else {
      TracksLower(iv, data, m, c, a, ct, qe);
    }
  }

  lemma Distribute(x: nat, y: nat, w: nat)
    ensures (x + y) * w == x * w + y * w
  {
  }

  lemma TracksIn(iv: Interval, data: seq<byte>, m: nat, c: nat, a: nat, ct: int)
    requires Tracks(iv, data, m, c, a, ct)
    ensures Contains(iv, data)
  {
    var w := Pow2(ct);
    assert (iv.low + a) * w == iv.low * w + a * w;
    InAnyWindow(iv, data, m, iv.shifts + 3);
  }

  lemma {:induction false} ContainsRenorm(iv: Interval, data: seq<byte>)
    requires 0 < iv.range <= 0x1_0000 && Contains(iv, data)
    ensures Contains(Renorm(iv), data)
  {
    var m := Renorm(iv).shifts + 3;
    InAnyWindow(iv, data, iv.shifts + 3, m);
    InRenorm(Window(data, m), 8 * m, iv);
  }

  lemma FetchedMarker(input: seq<byte>, pos: nat)
    ensures MarkerAfter(input, pos) ==
              match FetchAt(input, pos)
              case Data(_, next) => MarkerAfter(input, next)
              case Marker(code, next) => Marker(code, next)
              case Starved => Starved
  {
  }

  class Decoder {
    const table: Table
    const stats: array<int>
    const input: seq<byte>    // the source

    var pos: nat              // next input byte
    var unreadMarker: int     // 0, or the marker that ended the segment
    var c: nat
    var a: nat
    var ct: int

    ghost var base: nat       // where the segment starts
    ghost var entry: State    // what it starts with
    ghost var history: seq<Decision>
    ghost var fetched: nat    // data bytes taken so far, stuffed zeros included
    ghost var cur: Interval   // the interval, not yet renormalised

    ghost function Stream(): seq<byte>
      reads this`base
    {
      Segment(input, base)
    }

    // The marker that ends the segment, as far as it is known from here.
    ghost function EndAhead(): (f: Fetch)
      reads this`pos, this`unreadMarker
    {
      if 0 < unreadMarker < 256 then Marker(unreadMarker, pos) else MarkerAfter(input, pos)
    }

    // Still in the segment it was in.
    twostate predicate SameSegment()
      reads this
    {
      base == old(base) && entry == old(entry)
    }

    ghost predicate InputOk()
      reads this`base, this`pos, this`unreadMarker, this`fetched
    {
      && pos <= |input| && 0 <= unreadMarker < 256 && EndAhead() == MarkerAfter(input, base)
      && (unreadMarker == 0 ==>
            fetched <= |Stream()| && Stream()[fetched..] == Segment(input, pos)
            && (EndsInMarker(input, base) <==> EndsInMarker(input, pos)))
      && (unreadMarker != 0 ==> fetched >= |Stream()|)
    }

    ghost function Now(): State
      requires GoodDecisions(history, |entry.stats|) && GoodState(entry)
      reads this`entry, this`history
    {
      Run(table, entry, history)
    }

    ghost predicate RegistersOk()
      reads this`base, this`ct, this`a, this`c, this`fetched, this`cur
    {
      if ct < 0 then ct == -16 && a == 0 && c == 0 && fetched == 0 && cur == FULL
      else 0 < a <= 0x1_0000 && Tracks(cur, Stream(), fetched, c, a, ct)
    }

    ghost predicate Valid()
      reads this, stats
    {
      && GoodState(entry) && entry.iv == FULL && |entry.stats| == stats.Length
      && GoodDecisions(history, stats.Length)
      && Now().stats == stats[..]
      && InputOk()
      && RegistersOk() && c < REGISTER_MAX
      && 0 < cur.range <= 0x1_0000 && Renorm(cur) == Now().iv
    }

    constructor (t: Table, init: seq<int>, source: seq<byte>)
      requires GoodStats(init)
      ensures Valid() && fresh(stats)
      ensures table == t && input == source && stats.Length == |init|
      ensures history == [] && entry == State(FULL, init) && base == 0
    {
      table := t;
      stats := new int[|init|](i requires 0 <= i < |init| => init[i]);
      input := source;
      pos, unreadMarker, c, a, ct := 0, 0, 0, 0, -16;
      entry, base := State(FULL, init), 0;
      history, fetched, cur := [], 0, FULL;
      new;
      assert stats[..] == entry.stats;
    }

    // get_byte; false when the source has no more to give.
    method GetByte() returns (ok: bool, b: byte)
      requires pos <= |input|
      modifies this`pos
      ensures ok == (old(pos) < |input|)
      ensures if ok then pos == old(pos) + 1 && b == input[old(pos)] else pos == old(pos)
    {
      if pos == |input| { return false, 0; }
      b := input[pos];
      pos := pos + 1;
      ok := true;
    }

    // Read a byte; past a 0xFF, swallow more of them, then tell data from a marker.
    method ReadData() returns (ok: bool, b: byte)
      requires pos <= |input| && unreadMarker == 0
      modifies this`pos, this`unreadMarker
      ensures pos <= |input|
      ensures match FetchAt(input, old(pos))
              case Data(d, next) => ok && b == d && pos == next && unreadMarker == 0
              case Marker(code, next) => ok && b == 0 && pos == next && unreadMarker == code && code != 0
              case Starved => !ok
    {
      ghost var p := pos;
      ok, b := GetByte();
      if ok && b == 0xFF {
        ok, b := GetByte();
        while ok && b == 0xFF
          invariant pos <= |input| && unreadMarker == 0
          invariant ok ==> pos > 0 && b == input[pos - 1] && AfterFF(input, p + 1) == AfterFF(input, pos - 1)
          invariant !ok ==> AfterFF(input, p + 1) == Starved
          decreases |input| - pos, ok
        {
          ok, b := GetByte();
        }
        if ok {
          if b == 0 {
            b := 0xFF;
          } else {
            unreadMarker := b;
            b := 0;
          }
        }
      }
    }

    // "Need to fetch next data byte", or stuff zero data at a marker.
    method NextData() returns (ok: bool, b: byte)
      requires InputOk()
      modifies this`pos, this`unreadMarker, this`fetched
      ensures EndsInMarker(input, base) ==> ok
      ensures ok ==> InputOk() && fetched == old(fetched) + 1 && b == DataByte(Stream(), old(fetched))
    {
      if unreadMarker != 0 {
        ok, b := true, 0;
      } else {
        ghost var left := Stream()[fetched..];
        assert left == Segment(input, pos);
        FetchedMarker(input, pos);
        ok, b := ReadData();
        if ok && unreadMarker == 0 {
          assert Stream()[fetched] == left[0] && Stream()[fetched + 1..] == left[1..];
        }
      }
      if ok { fetched := fetched + 1; }
    }

    ghost predicate Filling()
      reads this`base, this`pos, this`unreadMarker, this`fetched, this`ct, this`a, this`c, this`cur
    {
      && InputOk()
      && (if ct < 0 then ct == -16 + 8 * fetched && fetched <= 1 && a == 0 && cur == FULL
          && c == Window(Stream(), fetched)
          else 0 < a <= 0x1_0000 && Tracks(cur, Stream(), fetched, c, a, ct))
    }

    // Renormalisation and data input, section D.2.6.
    method Fill() returns (ok: bool)
      requires InputOk() && RegistersOk() && 0 < cur.range <= 0x1_0000
      modifies this`pos, this`unreadMarker, this`fetched, this`c, this`a, this`ct, this`cur
      ensures EndsInMarker(input, base) ==> ok
      ensures ok ==> InputOk() && RegistersOk() && ct >= 0 && a >= 0x8000 && cur == Renorm(old(cur))
    {
      ok := true;
      while a < 0x8000
        invariant ok && Filling()
        invariant 0 < cur.range <= 0x1_0000 && Renorm(cur) == Renorm(old(cur))
        decreases if ct < 0 then -ct else 0, 0x1_0000 - a
      {
        ok := FillStep();
        if !ok { return; }
      }
    }

    method FillStep() returns (ok: bool)
      requires Filling() && a < 0x8000 && (ct >= 0 ==> cur.range == a)
      modifies this`pos, this`unreadMarker, this`fetched, this`c, this`a, this`ct, this`cur
      ensures EndsInMarker(input, base) ==> ok
      ensures ok ==> Filling()
      ensures ok && old(ct) >= 0 ==> ct >= 0 && a == 2 * old(a) && cur == Double(old(cur))
      ensures ok && old(ct) < 0 ==> (ct >= 0 || ct == old(ct) + 8) && cur == FULL
    {
      hide Tracks, Window, Segment, EndsInMarker, DataByte, MarkerAfter, EndAhead;
      ghost var iv := cur;
      ok := true;
      if ct >= 0 { TracksMeans(iv, Stream(), fetched, c, a, ct); }
      NextWindow(Stream(), fetched);
      ct := ct - 1;
      if ct < 0 {
        var b;
        ok, b := NextData();
        if !ok { return; }
        if ct == -1 {
          TracksFetch(iv, Stream(), fetched - 1, c, a);
          cur := Double(iv);
        }
        c := 256 * c + b;
        ct := ct + 8;
        if ct < 0 {
          ct := ct + 1;
          if ct == 0 {
            a := 0x8000;
            TracksStart(Stream());
          }
        }
      } else {
        TracksShift(iv, Stream(), fetched, c, a, ct + 1);
        cur := Double(iv);
      }
      a := 2 * a;
    }

    method ArithDecode(st: nat) returns (ok: bool, bit: int)
      requires Valid() && st < stats.Length
      modifies stats, this`history
      modifies this`pos, this`unreadMarker, this`fetched, this`c, this`a, this`ct, this`cur
      ensures EndsInMarker(input, base) ==> ok
      ensures ok ==> Valid() && 0 <= bit <= 1
      ensures if ok then history == old(history) + [Decision(st, bit)] else history == old(history)
      ensures ok && table == JPEG_ARITAB ==> Adapted(old(Now()), Now(), Decision(st, bit))
    {
      hide Adapted, Code, Run, Window, Pow2;
      ok := Fill();
      if !ok { return false, 0; }
      ghost var s := Now();
      bit := Split(s, st);
      TracksFits(cur, Stream(), fetched, c, a, ct);
      RunSnoc(table, entry, history, Decision(st, bit));
      if table == JPEG_ARITAB { CodeAdapts(s, Decision(st, bit)); }
      history := history + [Decision(st, bit)];
    }

    // Decode and estimate, sections D.2.4 and D.2.5.
    method Split(ghost s: State, st: nat) returns (bit: int)
      requires st < stats.Length && GoodState(s) && s.stats == stats[..] && s.iv == cur
      requires RegistersOk() && ct >= 0
      modifies stats, this`c, this`a, this`cur
      ensures RegistersOk() && ct >= 0 && 0 <= bit <= 1
      ensures Code(table, s, Decision(st, bit)) == State(Renorm(cur), stats[..])
    {
      var upper, exchange := Compare(Qe(table[stats[st] % 0x80]));
      bit := Update(s, st, upper, exchange, a < 0x8000);
    }

    // The estimation side: the bit, and the next state of its bin.
    method Update(ghost s: State, st: nat, upper: bool, exchange: bool, renorm: bool) returns (bit: int)
      requires st < stats.Length && GoodState(s) && s.stats == stats[..]
      requires var qe := Qe(table[stats[st] % 0x80]);
               exchange == (s.iv.range - qe < qe)
               && renorm == ((if upper then Upper(s.iv, qe) else Lower(s.iv, qe)).range < 0x8000)
      modifies stats
      ensures 0 <= bit <= 1
      ensures var qe := Qe(table[old(stats[st]) % 0x80]);
              var part := if upper then Upper(s.iv, qe) else Lower(s.iv, qe);
              0 < part.range <= 0x1_0000
              && Code(table, s, Decision(st, bit)) == State(Renorm(part), stats[..])
    {
      var sv := stats[st];
      var e: Entry := table[sv % 0x80];
      bit := sv / 0x80;
      if upper {
        if exchange {
          stats[st] := Estimate(sv, Nm(e));
        } else {
          stats[st] := Estimate(sv, Nl(e));
          bit := 1 - bit;
        }
      } else if renorm {
        if exchange {
          stats[st] := Estimate(sv, Nl(e));
          bit := 1 - bit;
        } else {
          stats[st] := Estimate(sv, Nm(e));
        }
      }
    }

    // The register side: which part the stream is in, and whether the parts are exchanged.
    method Compare(qe: nat) returns (upper: bool, exchange: bool)
      requires RegistersOk() && ct >= 0 && 0 < qe < 0x8000 <= a
      modifies this`c, this`a, this`cur
      ensures RegistersOk() && exchange == (old(cur).range - qe < qe)
      ensures cur == if upper then Upper(old(cur), qe) else Lower(old(cur), qe)
    {
      TracksPart(cur, Stream(), fetched, c, a, ct, qe);
      var temp := a - qe;
      exchange := temp < qe;
      upper := c >= temp * Pow2(ct);
      if upper {
        c := c - temp * Pow2(ct);
        a := qe;
        cur := Upper(cur, qe);
      } else {
        a := temp;
        cur := Lower(cur, qe);
      }
    }

    // process_restart. A marker other than the one expected is left to the source's own
    // way of getting back into step, which is not part of this model.
    method ProcessRestart(num: nat, init: seq<int>) returns (r: Restart)
      requires Valid() && num < 8 && GoodStats(init) && |init| == stats.Length
      modifies this, stats
      ensures var f := MarkerAfter(input, old(base));
              && (r == MustWait <==> !f.Marker?)
              && (r == Restarted <==> f.Marker? && f.code == 0xD0 + num)
              && (r == Restarted ==> Valid() && base == f.next && history == [] && entry == State(FULL, init))
    {
      hide MarkerAfter, GoodStats;
      assert input[..|input|] == input;
      if unreadMarker == 0 {
        var code, next := NextMarker(input, |input|, pos);
        if code == 0 { return MustWait; }
        unreadMarker, pos := code, next;
      }
      if unreadMarker != RST0 + num { return OutOfStep; }
      unreadMarker := 0;
      StartSegment(init);
      r := Restarted;
    }

    method StartSegment(init: seq<int>)
      requires GoodStats(init) && |init| == stats.Length && pos <= |input| && unreadMarker == 0
      modifies this`c, this`a, this`ct, this`base, this`entry, this`history, this`fetched, this`cur, stats
      ensures Valid() && history == [] && entry == State(FULL, init) && base == pos
    {
      c, a, ct := 0, 0, -16;
      base, entry, history, fetched, cur := pos, State(FULL, init), [], 0, FULL;
      ClearStats(init);
    }

    method ClearStats(init: seq<int>)
      requires |init| == stats.Length
      modifies stats
      ensures stats[..] == init
    {
      forall i | 0 <= i < stats.Length { stats[i] := init[i]; }
    }

    // At any time, whatever was decoded, the stream lies in the interval of the
    // decisions returned so far.
    lemma StreamInside()
      requires Valid()
      ensures GoodState(entry) && GoodDecisions(history, |entry.stats|) && GoodState(Now())
      ensures Now().stats == stats[..] && Contains(Now().iv, Stream())
    {
      if ct < 0 {
        TracksStart(Stream());
        TracksIn(FULL, Stream(), 2, Window(Stream(), 2), 0x1_0000, 0);
      } else {
        TracksIn(cur, Stream(), fetched, c, a, ct);
      }
      ContainsRenorm(cur, Stream());
    }

    // The stream is one that an encoder could have made by continuing with ds.
    ghost predicate Expects(ds: seq<Decision>)
      reads this`base, this`entry, this`history
    {
      && GoodState(entry) && GoodDecisions(history, |entry.stats|) && GoodDecisions(ds, |entry.stats|)
      && EndsInMarker(input, base)
      && Contains(Run(table, Now(), ds).iv, Stream())
    }

    // Decode one decision; if the stream was to continue with [x] + next, and x asks
    // this bin, then its bit comes back and the stream is to continue with next.
    method ArithDecodeNext(st: nat, ghost x: Decision, ghost next: seq<Decision>) returns (ok: bool, bit: int)
      requires Valid() && st < stats.Length
      modifies stats, this`history
      modifies this`pos, this`unreadMarker, this`fetched, this`c, this`a, this`ct, this`cur
      ensures ok ==> Valid() && 0 <= bit <= 1
      ensures if ok then history == old(history) + [Decision(st, bit)] else history == old(history)
      ensures old(Expects([x] + next)) && x.bin == st ==> ok && bit == x.bit && Expects(next)
    {
      hide Valid, Run, Contains, EndsInMarker;
      StreamInside();
      ghost var s := Now();
      ok, bit := ArithDecode(st);
      if ok {
        RunSnoc(table, entry, old(history), Decision(st, bit));
        StreamInside();
        if old(Expects([x] + next)) && x.bin == st {
          FirstBit(table, s, x, next, Decision(st, bit), Stream());
          RunConcat(table, entry, old(history), [x]);
          assert history == old(history) + [x];
        }
      }
    }
  }

  lemma FirstBit(t: Table, s: State, x: Decision, next: seq<Decision>, d: Decision, data: seq<byte>)
    requires GoodState(s) && GoodDecisions([x] + next, |s.stats|) && GoodDecision(d, |s.stats|)
    requires x.bin == d.bin
    requires Contains(Run(t, s, [x] + next).iv, data) && Contains(Code(t, s, d).iv, data)
    ensures x == d && GoodDecisions(next, |s.stats|) && GoodDecision(x, |s.stats|)
    ensures Run(t, s, [x]) == Code(t, s, x)
    ensures Contains(Run(t, Code(t, s, x), next).iv, data)
  {
    hide Code;
    assert ([x] + next)[0] == x;
    assert forall i :: 0 <= i < |next| ==> ([x] + next)[i + 1] == next[i];
    assert [] + [x] == [x];
    RunSnoc(t, s, [], x);
    RunConcat(t, s, [x], next);
    var s1 := Code(t, s, x);
    var end := Run(t, s1, next);
    var m := end.iv.shifts + s1.iv.shifts + Code(t, s, d).iv.shifts + 3;
    InAnyWindow(end.iv, data, end.iv.shifts + 3, m);
    InRun(t, s1, next, Window(data, m), 8 * m);
    InAnyWindow(Code(t, s, d).iv, data, Code(t, s, d).iv.shifts + 3, m);
    BitIsDetermined(t, s, x, d, Window(data, m), 8 * m);
  }
}
