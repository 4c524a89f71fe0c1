// The pass scheduling of the compressor: jcmaster.c and the pass loop of
// jpeg_finish_compress in jcapimin.c.
module PassMaster {

  // The parameters of a scan that matter here.
  datatype ScanParams = ScanParams(ss: nat, ah: nat)

  predicate DcRefinement(s: ScanParams) { s.ss == 0 && s.ah != 0 }

  // What happens to the entropy coder and the marker writer. The numbers are those of
  // the scan whose parameters are in force.
  datatype Event =
    | Start(scan: nat, gather: bool)
    | Finish(scan: nat, gather: bool)
    | FrameHeader
    | ScanHeader(scan: nat)
    | Trailer

  datatype PassType = MainPass | HuffOptPass | OutputPass

  // ---- What should happen ------------------------------------------------------------------------------------------

  // A scan is output once, under its own parameters and after its header. The frame
  // header comes before that of the first scan; statistics are gathered first when
  // coding is optimized, except for DC refinement, which uses no tables.
  function ScanEvents(scans: seq<ScanParams>, optimize: bool, k: nat): seq<Event>
    requires k < |scans|
  {
    StatisticsOf(scans, optimize, k) + [Start(k, false)] + (if k == 0 then [FrameHeader] else [])
        + [ScanHeader(k), Finish(k, false)]
  }

  function StatisticsOf(scans: seq<ScanParams>, optimize: bool, k: nat): seq<Event>
    requires k < |scans|
  {
    if optimize && !DcRefinement(scans[k]) then [Start(k, true), Finish(k, true)] else []
  }

  // The first k scans.
  function Schedule(scans: seq<ScanParams>, optimize: bool, k: nat): seq<Event>
    requires k <= |scans|
  {
    if k == 0 then [] else Schedule(scans, optimize, k - 1) + ScanEvents(scans, optimize, k - 1)
  }

  class Master {
    const scans: seq<ScanParams>       // cinfo->scan_info, validated
    const optimize: bool               // cinfo->optimize_coding
    const arith: bool                  // cinfo->arith_code
    var passType: PassType
    var passNumber: nat
    var totalPasses: nat
    var scanNumber: nat
    var callPassStartup: bool
    var isLastPass: bool
    var params: nat                    // the scan chosen by select_scan_parameters
    var gathering: bool                // how the entropy coder was started
    var log: seq<Event>                // what has been done

    predicate Good() reads this`totalPasses {
      scans != [] && totalPasses == if optimize then 2 * |scans| else |scans|
    }

    // Between passes: scanNumber scans have been output. With optimization each counts
    // for two passes, and the statistics of the current one may have been gathered.
    ghost predicate Between() reads this {
      && Good() && scanNumber <= |scans| && !callPassStartup
      && match passType
         case MainPass => scanNumber == 0 && passNumber == 0 && log == []
         case HuffOptPass => optimize && passNumber == 2 * scanNumber && log == Schedule(scans, optimize, scanNumber)
         case OutputPass =>
           if optimize then
             scanNumber < |scans| && passNumber == 2 * scanNumber + 1 && params == scanNumber
                 && !DcRefinement(scans[scanNumber])
             && log == Schedule(scans, optimize, scanNumber) + StatisticsOf(scans, optimize, scanNumber)
           else passNumber == scanNumber && log == Schedule(scans, optimize, scanNumber)
    }

    // During a pass: what has been logged of the current scan.
    ghost predicate Within() reads this {
      && Good() && scanNumber < |scans| && params == scanNumber && (gathering ==> optimize)
      && isLastPass == (passNumber == totalPasses - 1)
      && passNumber == (if optimize then 2 * scanNumber + if gathering then 0 else 1 else scanNumber)
      && (passType == HuffOptPass ==> gathering) && (passType == OutputPass ==> !gathering)
      && (passType == MainPass ==> gathering == optimize)
      && (passType == MainPass ==> scanNumber == 0)
      && (gathering ==> !DcRefinement(scans[scanNumber]) && !callPassStartup)
      && (callPassStartup ==> scanNumber == 0)
      && var before := Schedule(scans, optimize, scanNumber);
      if gathering then log == before + [Start(scanNumber, true)]
      else log == before + StatisticsOf(scans, optimize, scanNumber) + [Start(scanNumber, false)]
                  + if callPassStartup then []
                      else (if scanNumber == 0 then [FrameHeader] else []) + [ScanHeader(scanNumber)]
    }

    // jinit_c_master_control, the script being validated; a progressive Huffman file is
    // always optimized.
    constructor (scans: seq<ScanParams>, optimizeCoding: bool, progressive: bool, reduced: bool, arith: bool,
        transcodeOnly: bool)
      requires scans != []
      ensures Between() && !isLastPass && log == [] && this.scans == scans && this.arith == arith
      ensures optimize == (optimizeCoding || ((progressive || reduced) && !arith))
      ensures passType == if transcodeOnly then (if optimize then HuffOptPass else OutputPass) else MainPass
    {
      this.scans, this.arith := scans, arith;
      var opt := if (progressive || reduced) && !arith then true else optimizeCoding;
      optimize := opt;
      if transcodeOnly {
        passType := if opt then HuffOptPass else OutputPass;
      } else {
        passType := MainPass;
      }
      scanNumber, passNumber, params := 0, 0, 0;
      totalPasses := if opt then |scans| * 2 else |scans|;
      callPassStartup, isLastPass, gathering := false, false, false;
      log := [];
    }

    // entropy->start_pass: the arithmetic coder gathers no statistics.
    method StartEntropy(gather: bool) returns (ok: bool)
      modifies this`log, this`gathering
      ensures ok == !(gather && arith) && log == old(log) + [Start(params, gather)] && gathering == gather
    {
      gathering := gather;
      log := log + [Start(params, gather)];
      ok := !(gather && arith);
    }

    method PrepareForPass() returns (ok: bool)
      requires Between() && passNumber < totalPasses && (passType == MainPass && optimize ==> !DcRefinement(scans[0]))
      modifies this
      ensures ok ==> Within() && passNumber >= old(passNumber)
      ensures !arith || !optimize ==> ok
      ensures passType == MainPass <==> old(passType) == MainPass
      ensures callPassStartup <==> passType == MainPass && !optimize
      ensures totalPasses == old(totalPasses)
      ensures arith && optimize && old(passType) != OutputPass && !DcRefinement(scans[old(scanNumber)]) ==> !ok
    {
      hide Schedule;
      ok := true;
      NothingYet();
      match passType {
        case MainPass =>
          params := scanNumber;
          ok := StartEntropy(optimize);
          callPassStartup := !optimize;
        case HuffOptPass =>
          params := scanNumber;
          if !DcRefinement(scans[params]) {
            ok := StartEntropy(true);
            callPassStartup := false;
          } else {
            passType := OutputPass;
            passNumber := passNumber + 1;
            OutputData();
          }
        case OutputPass =>
          OutputData();
      }
      isLastPass := passNumber == totalPasses - 1;
    }

    lemma NothingYet()
      ensures Schedule(scans, optimize, 0) == []
    {
    }

    // The output_pass case of prepare_for_pass. After a statistics pass the scan
    // parameters are still in place.
    method OutputData()
      requires Good() && scanNumber < |scans| && (optimize ==> params == scanNumber)
      modifies this`params, this`gathering, this`callPassStartup, this`log
      ensures params == scanNumber && !gathering && !callPassStartup
      ensures log == old(log) + ([Start(scanNumber, false)]
          + ((if scanNumber == 0 then [FrameHeader] else []) + [ScanHeader(scanNumber)]))
    {
      if !optimize {
        params := scanNumber;
      }
      var _ := StartEntropy(false);
      if scanNumber == 0 {
        log := log + [FrameHeader];
      }
      log := log + [ScanHeader(params)];
      callPassStartup := false;
    }

    // pass_startup: the headers of single-pass processing.
    method PassStartup()
      requires Within() && callPassStartup
      modifies this`callPassStartup, this`log
      ensures Within() && !callPassStartup
    {
      callPassStartup := false;
      log := log + [FrameHeader];
      log := log + [ScanHeader(params)];
    }

    // finish_pass_master
    method FinishPass()
      requires Within() && !callPassStartup
      modifies this`log, this`passType, this`scanNumber, this`passNumber
      ensures Between() && passType != MainPass && passNumber == old(passNumber) + 1
      ensures passNumber == totalPasses ==> scanNumber == |scans| && log == Schedule(scans, optimize, |scans|)
    {
      hide Schedule;
      ghost var before := log;
      log := log + [Finish(params, gathering)];
      if !gathering {
        ScanDone(scans, optimize, scanNumber, before, log);
      } else { Gathered(scans, optimize, scanNumber, before, log); }
      match passType {
        case MainPass =>
          passType := OutputPass;
          if !optimize {
            scanNumber := scanNumber + 1;
          }
        case HuffOptPass =>
          passType := OutputPass;
        case OutputPass =>
          if optimize {
            passType := HuffOptPass;
          }
          scanNumber := scanNumber + 1;
      }
      passNumber := passNumber + 1;
    }

    // The pass loop of jpeg_finish_compress, and the trailer.
    method RemainingPasses() returns (ok: bool)
      requires Between() && passType != MainPass && (isLastPass ==> passNumber == totalPasses)
          && (!isLastPass ==> passNumber < totalPasses)
      requires arith ==> !optimize
      modifies this
      ensures ok && passNumber == totalPasses && isLastPass && log == Schedule(scans, optimize, |scans|) + [Trailer]
    {
      while !isLastPass
        invariant Between() && passType != MainPass && (isLastPass ==> passNumber == totalPasses)
            && (!isLastPass ==> passNumber < totalPasses)
        decreases totalPasses - passNumber, !isLastPass
      {
        ok := PrepareForPass();
        FinishPass();
      }
      AllScansDone();
      log := log + [Trailer];
      ok := true;
    }

    lemma AllScansDone()
      requires Between() && passType != MainPass && passNumber == totalPasses
      ensures scanNumber == |scans| && log == Schedule(scans, optimize, |scans|)
    {
    }
  }

  lemma ScanDone(scans: seq<ScanParams>, optimize: bool, k: nat, before: seq<Event>, after: seq<Event>)
    requires k < |scans| && after == before + [Finish(k, false)]
    requires before == Schedule(scans, optimize, k) + StatisticsOf(scans, optimize, k) + [Start(k, false)]
                       + ((if k == 0 then [FrameHeader] else []) + [ScanHeader(k)])
    ensures after == Schedule(scans, optimize, k + 1)
  {
  }

  lemma Gathered(scans: seq<ScanParams>, optimize: bool, k: nat, before: seq<Event>, after: seq<Event>)
    requires k < |scans| && optimize && !DcRefinement(scans[k]) && after == before + [Finish(k, true)]
    requires before == Schedule(scans, optimize, k) + [Start(k, true)]
    ensures after == Schedule(scans, optimize, k) + StatisticsOf(scans, optimize, k)
  {
  }

  // ---- Reading the schedule ----------------------------------------------------------------------------------------

  // The scans whose headers are in the log.
  function Headers(log: seq<Event>): seq<nat> {
    if log == [] then [] else Headers(log[..|log| - 1]) + if log[|log| - 1].ScanHeader? then [log[|log| - 1].scan]
        else []
  }

  lemma {:induction false} HeadersConcat(a: seq<Event>, b: seq<Event>)
    ensures Headers(a + b) == Headers(a) + Headers(b)
    decreases |b|
  {
    if b == [] {
      assert a + b == a;
    } else {
      assert (a + b)[..|a + b| - 1] == a + b[..|b| - 1];
      HeadersConcat(a, b[..|b| - 1]);
    }
  }

  // Each scan exactly once, in script order.
  lemma {:induction false} HeadersInOrder(scans: seq<ScanParams>, optimize: bool, k: nat)
    requires k <= |scans|
    ensures Headers(Schedule(scans, optimize, k)) == seq(k, i => i)
    decreases k
  {
    hide Headers, StatisticsOf;
    if k == 0 {
      NoHeaders();
    } else {
      var j := k - 1;
      HeadersInOrder(scans, optimize, j);
      HeadersConcat(Schedule(scans, optimize, j), ScanEvents(scans, optimize, j));
      var a, b := StatisticsOf(scans, optimize, j),
          [Start(j, false)] + (if j == 0 then [FrameHeader] else []) + [ScanHeader(j), Finish(j, false)];
      assert ScanEvents(scans, optimize, j) == a + b;
      HeadersConcat(a, b);
      FewHeaders(scans, optimize, j);
    }
  }

  lemma NoHeaders()
    ensures Headers([]) == []
  {
  }

  lemma FewHeaders(scans: seq<ScanParams>, optimize: bool, j: nat)
    requires j < |scans|
    ensures Headers(StatisticsOf(scans, optimize, j)) == []
    ensures Headers([Start(j, false)] + (if j == 0 then [FrameHeader] else []) + [ScanHeader(j), Finish(j, false)])
        == [j]
  {
    var s, f, h, e := Start(j, false), if j == 0 then [FrameHeader] else [], ScanHeader(j), Finish(j, false);
    HeadersConcat([Start(j, true)], [Finish(j, true)]);
    assert [Start(j, true)] + [Finish(j, true)] == [Start(j, true), Finish(j, true)];
    HeadersConcat([s] + f, [h, e]);
    HeadersConcat([s], f);
    HeadersConcat([h], [e]);
    assert [h] + [e] == [h, e];
    forall x: Event ensures Headers([x]) == if x.ScanHeader? then [x.scan] else [] { assert [x][..0] == []; }
  }

  // The frame header comes once, right before the first scan header.
  lemma {:induction false} FrameHeaderFirst(scans: seq<ScanParams>, optimize: bool, k: nat, i: nat)
    requires 0 < k <= |scans| && i < |Schedule(scans, optimize, k)|
    ensures |Schedule(scans, optimize, k)| > |StatisticsOf(scans, optimize, 0)| + 2
    ensures Schedule(scans, optimize, k)[i] == FrameHeader <==> i == |StatisticsOf(scans, optimize, 0)| + 1
    ensures Schedule(scans, optimize, k)[|StatisticsOf(scans, optimize, 0)| + 2] == ScanHeader(0)
    decreases k
  {
    var before, now := Schedule(scans, optimize, k - 1), ScanEvents(scans, optimize, k - 1);
    if k > 1 {
      FrameHeaderFirst(scans, optimize, k - 1, if i < |before| then i else 0);
    }
  }

  // ---- The passes of a scan ----------------------------------------------------------------------------------------

  // The event happens at p and at no other time.
  predicate OnlyAt(log: seq<Event>, e: Event, p: nat) {
    p < |log| && forall i :: 0 <= i < |log| ==> (log[i] == e <==> i == p)
  }

  // Scan k is coded once, from p on: under its own parameters, with its header and, for
  // the first scan, the frame header before it. A statistics pass is made right before
  // that, and once, exactly when coding is optimized and the scan has Ss != 0 or Ah == 0.
  predicate PassesAt(log: seq<Event>, scans: seq<ScanParams>, optimize: bool, k: nat, p: nat)
    requires k < |scans|
  {
    && OnlyAt(log, Start(k, false), p)
    && (k == 0 ==> OnlyAt(log, FrameHeader, p + 1))
    && var h := if k == 0 then p + 2 else p + 1;
    && OnlyAt(log, ScanHeader(k), h) && OnlyAt(log, Finish(k, false), h + 1)
    && if optimize && (scans[k].ss != 0 || scans[k].ah == 0)
       then p >= 2 && OnlyAt(log, Start(k, true), p - 2) && OnlyAt(log, Finish(k, true), p - 1)
       else Start(k, true) !in log && Finish(k, true) !in log
  }

  // Where the output of scan k starts.
  function OutputFrom(scans: seq<ScanParams>, optimize: bool, k: nat): nat
    requires k < |scans|
  {
    |Schedule(scans, optimize, k)| + |StatisticsOf(scans, optimize, k)|
  }

  // Before scan k nothing has happened to it, nor any frame header before the first.
  predicate Untouched(log: seq<Event>, k: nat) {
    forall e <- log :: e.Trailer? || (e.FrameHeader? && k > 0) || (!e.FrameHeader? && e.scan != k)
  }

  lemma {:induction false} NotYet(scans: seq<ScanParams>, optimize: bool, j: nat, k: nat)
    requires j <= k < |scans|
    ensures Untouched(Schedule(scans, optimize, j), k)
    decreases j
  {
    if j > 0 { NotYet(scans, optimize, j - 1, k); }
  }

  lemma AtItsTurn(scans: seq<ScanParams>, optimize: bool, k: nat)
    requires k < |scans|
    ensures PassesAt(Schedule(scans, optimize, k + 1), scans, optimize, k, OutputFrom(scans, optimize, k))
  {
    NotYet(scans, optimize, k, k);
    InTurn(Schedule(scans, optimize, k), scans, optimize, k);
  }

  lemma InTurn(before: seq<Event>, scans: seq<ScanParams>, optimize: bool, k: nat)
    requires k < |scans| && Untouched(before, k)
    ensures PassesAt(before + ScanEvents(scans, optimize, k), scans, optimize, k,
              |before| + |StatisticsOf(scans, optimize, k)|)
  {
    hide OnlyAt, Untouched;
    var events, p := ScanEvents(scans, optimize, k), |StatisticsOf(scans, optimize, k)|;
    var h := if k == 0 then p + 2 else p + 1;
    ShiftedBy(before, events, k, Start(k, false), p);
    if k == 0 { ShiftedBy(before, events, k, FrameHeader, p + 1); }
    ShiftedBy(before, events, k, ScanHeader(k), h);
    ShiftedBy(before, events, k, Finish(k, false), h + 1);
    if p == 2 {
      ShiftedBy(before, events, k, Start(k, true), 0);
      ShiftedBy(before, events, k, Finish(k, true), 1);
    } else {
      NotThere(before, events, k, Start(k, true));
      NotThere(before, events, k, Finish(k, true));
    }
  }

  lemma ShiftedBy(before: seq<Event>, events: seq<Event>, k: nat, e: Event, q: nat)
    requires Untouched(before, k) && (if e.FrameHeader? then k == 0 else !e.Trailer? && e.scan == k)
    requires q < |events| && forall i :: 0 <= i < |events| ==> (events[i] == e <==> i == q)
    ensures OnlyAt(before + events, e, |before| + q)
  {
  }

  lemma NotThere(before: seq<Event>, events: seq<Event>, k: nat, e: Event)
    requires Untouched(before, k) && !e.FrameHeader? && !e.Trailer? && e.scan == k && e !in events
    ensures e !in before + events
  {
  }

  lemma StayAt(log: seq<Event>, more: seq<Event>, scans: seq<ScanParams>, optimize: bool, k: nat, p: nat)
    requires k < |scans| && PassesAt(log, scans, optimize, k, p)
    requires forall e <- more :: e.Trailer? || (!e.FrameHeader? && e.scan != k) || (e.FrameHeader? && k > 0)
    ensures PassesAt(log + more, scans, optimize, k, p)
  {
    forall e: Event, q: nat | OnlyAt(log, e, q) && e !in more ensures OnlyAt(log + more, e, q) {}
  }

  lemma {:induction false} PassesStay(scans: seq<ScanParams>, optimize: bool, n: nat, k: nat)
    requires k < n <= |scans|
    ensures PassesAt(Schedule(scans, optimize, n), scans, optimize, k, OutputFrom(scans, optimize, k))
    decreases n
  {
    hide PassesAt;
    if n == k + 1 {
      AtItsTurn(scans, optimize, k);
    } else {
      PassesStay(scans, optimize, n - 1, k);
      StayAt(Schedule(scans, optimize, n - 1), ScanEvents(scans, optimize, n - 1), scans, optimize, k,
        OutputFrom(scans, optimize, k));
    }
  }

  ghost predicate HasPasses(log: seq<Event>, scans: seq<ScanParams>, optimize: bool, k: nat)
    requires k < |scans|
  {
    exists p: nat :: PassesAt(log, scans, optimize, k, p)
  }

  // All scans have the passes they need, in the order of the script.
  ghost predicate RightPasses(log: seq<Event>, scans: seq<ScanParams>, optimize: bool) {
    && (forall k :: 0 <= k < |scans| ==> HasPasses(log, scans, optimize, k))
    && Headers(log) == seq(|scans|, k => k)
    && (forall e <- log :: !(e.FrameHeader? || e.Trailer?) ==> e.scan < |scans|)
    && |log| > 0 && OnlyAt(log, Trailer, |log| - 1)
  }

  lemma {:induction false} NoStrangers(scans: seq<ScanParams>, optimize: bool, k: nat)
    requires k <= |scans|
    ensures forall e <- Schedule(scans, optimize, k) :: !e.Trailer? && (!e.FrameHeader? ==> e.scan < |scans|)
  {
    if k > 0 { NoStrangers(scans, optimize, k - 1); }
  }

  lemma NoHeaderIn(e: Event)
    requires !e.ScanHeader?
    ensures Headers([e]) == []
  {
    assert [e][..0] == [];
  }

  lemma ScheduleIsRight(scans: seq<ScanParams>, optimize: bool)
    ensures RightPasses(Schedule(scans, optimize, |scans|) + [Trailer], scans, optimize)
  {
    hide Schedule, PassesAt, Headers;
    var all := Schedule(scans, optimize, |scans|);
    forall k | 0 <= k < |scans| ensures HasPasses(all + [Trailer], scans, optimize, k) {
      PassesStay(scans, optimize, |scans|, k);
      StayAt(all, [Trailer], scans, optimize, k, OutputFrom(scans, optimize, k));
    }
    HeadersInOrder(scans, optimize, |scans|);
    HeadersConcat(all, [Trailer]);
    NoStrangers(scans, optimize, |scans|);
    NoHeaderIn(Trailer);
  }

  datatype Outcome = Done | TooLittleData | NotCompiled

  // next_scanline after calls of jpeg_write_scanlines that hand over so many lines each;
  // lines beyond the height are ignored.
  function LinesWritten(writes: seq<nat>, height: nat): (n: nat)
    ensures n <= height
  {
    if writes == [] then 0
    else
      var n := LinesWritten(writes[..|writes| - 1], height) + writes[|writes| - 1];
      if n <= height then n else height
  }

  // jpeg_start_compress, jpeg_write_scanlines as often as the application likes, and
  // jpeg_finish_compress. For transcoding there are only the last passes. Statistics
  // passes and arithmetic coding do not go together.
  method Compress(scans: seq<ScanParams>, optimizeCoding: bool, progressive: bool, reduced: bool, arith: bool,
      transcodeOnly: bool, height: nat, writes: seq<nat>)
    returns (r: Outcome, log: seq<Event>)
    requires scans != [] && scans[0] == ScanParams(0, 0) && height > 0
    ensures var optimize := optimizeCoding || ((progressive || reduced) && !arith);
            && (r == NotCompiled <==> arith && optimize)
            && (r == TooLittleData <==> !(arith && optimize) && !transcodeOnly && LinesWritten(writes, height) < height)
            && (r == Done ==> log == Schedule(scans, optimize, |scans|) + [Trailer]
                              && RightPasses(log, scans, optimize))
  {
    hide RightPasses;
    log := [];
    var m := new Master(scans, optimizeCoding, progressive, reduced, arith, transcodeOnly);
    var ok;
    if !transcodeOnly {
      ok := m.PrepareForPass();
      if !ok {
        return NotCompiled, log;
      }
      var nextScanline: nat := 0;
      for i := 0 to |writes|
        invariant m.Within() && m.passType == MainPass && m.passNumber == 0 && m.totalPasses >= 1
        invariant m.callPassStartup <==> i == 0 && !m.optimize
        invariant nextScanline == LinesWritten(writes[..i], height) && (i == 0 ==> nextScanline == 0)
      {
        assert writes[..i + 1][..i] == writes[..i];
        if m.callPassStartup {
          m.PassStartup();
        }
        var lines := if writes[i] > height - nextScanline then height - nextScanline else writes[i];
        nextScanline := nextScanline + lines;
      }
      assert writes[..|writes|] == writes;
      if nextScanline < height {
        return TooLittleData, log;
      }
      m.FinishPass();
    } else if arith && m.optimize {
      ok := m.PrepareForPass();
      return NotCompiled, log;
    }
    ok := m.RemainingPasses();
    ScheduleIsRight(scans, m.optimize);
    r, log := Done, m.log;
  }
}
