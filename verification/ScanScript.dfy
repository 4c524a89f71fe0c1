// validate_script and reduce_script of jcmaster.c: which scripts are accepted, and what
// that means for the bits of each coefficient.
module ScanScript {
  import opened ProgApprox

  const MAX_COMPS_IN_SCAN := 4
  const MAX_AH_AL := 10
  const DCTSIZE2 := 64

  // jpeg_scan_info
  datatype ScanInfo = ScanInfo(compsInScan: int, index: seq<int>, ss: int, se: int, ah: int, al: int)

  predicate GoodInfo(s: ScanInfo) { |s.index| == MAX_COMPS_IN_SCAN }

  predicate GoodScript(scans: seq<ScanInfo>) {
    forall i :: 0 <= i < |scans| ==> GoodInfo(scans[i])
  }

  // ---- What is accepted --------------------------------------------------------------------------------------------

  // The components are given in the order of the frame.
  predicate ComponentsOk(n: nat, s: ScanInfo)
    requires GoodInfo(s)
  {
    && 0 < s.compsInScan <= MAX_COMPS_IN_SCAN
    && (forall i :: 0 <= i < s.compsInScan ==> 0 <= s.index[i] < n)
    && (forall i :: 0 < i < s.compsInScan ==> s.index[i - 1] < s.index[i])
  }

  predicate ParametersOk(s: ScanInfo) {
    && 0 <= s.ss <= s.se < DCTSIZE2 && 0 <= s.ah <= MAX_AH_AL && 0 <= s.al <= MAX_AH_AL
    && (if s.ss == 0 then s.se == 0 else s.compsInScan == 1)
  }

  // For each component, the bit position of each coefficient in the last scan it was
  // in, or -1.
  type Positions = seq<seq<int>>

  predicate GoodPos(n: nat, pos: Positions) {
    |pos| == n && forall ci :: 0 <= ci < n ==> |pos[ci]| == DCTSIZE2
  }

  // One component's part of a scan adds to what has been sent.
  predicate Extends(p: seq<int>, s: ScanInfo)
    requires |p| == DCTSIZE2 && ParametersOk(s)
  {
    && (s.ss != 0 ==> p[0] >= 0)
    && forall k :: s.ss <= k <= s.se ==> if p[k] < 0 then s.ah == 0 else s.ah == p[k] && s.al == s.ah - 1
  }

  predicate InScan(s: ScanInfo, ci: int)
    requires GoodInfo(s)
  {
    exists i :: 0 <= i < s.compsInScan && i < MAX_COMPS_IN_SCAN && s.index[i] == ci
  }

  predicate ScanFollows(n: nat, pos: Positions, s: ScanInfo)
    requires GoodPos(n, pos) && GoodInfo(s)
  {
    && ComponentsOk(n, s) && ParametersOk(s)
    && forall i :: 0 <= i < s.compsInScan ==> Extends(pos[s.index[i]], s)
  }

  function AfterScan(n: nat, pos: Positions, s: ScanInfo): (p: Positions)
    requires GoodPos(n, pos) && GoodInfo(s) && ParametersOk(s)
    ensures GoodPos(n, p)
    ensures forall ci :: 0 <= ci < n ==> p[ci] == if InScan(s, ci) then Mark(pos[ci], s.ss, s.se, s.al) else pos[ci]
  {
    seq(n, ci requires 0 <= ci < n => if InScan(s, ci) then Mark(pos[ci], s.ss, s.se, s.al) else pos[ci])
  }

  predicate ScriptFollows(n: nat, pos: Positions, scans: seq<ScanInfo>)
    requires GoodPos(n, pos) && GoodScript(scans)
    decreases |scans|
  {
    scans == [] || (ScanFollows(n, pos, scans[0]) && ScriptFollows(n, AfterScan(n, pos, scans[0]), scans[1..]))
  }

  function AfterScript(n: nat, pos: Positions, scans: seq<ScanInfo>): (p: Positions)
    requires GoodPos(n, pos) && GoodScript(scans) && ScriptFollows(n, pos, scans)
    ensures GoodPos(n, p)
    decreases |scans|
  {
    if scans == [] then pos else AfterScript(n, AfterScan(n, pos, scans[0]), scans[1..])
  }

  function NothingSent(n: nat): (p: Positions)
    ensures GoodPos(n, p) && forall ci, k :: 0 <= ci < n && 0 <= k < DCTSIZE2 ==> p[ci][k] == -1
  {
    seq(n, _ => seq(DCTSIZE2, _ => -1))
  }

  predicate IsProgressive(scans: seq<ScanInfo>)
    requires scans != []
  {
    scans[0].ss != 0 || scans[0].se != DCTSIZE2 - 1
  }

  predicate AcceptsProgressive(n: nat, scans: seq<ScanInfo>)
    requires GoodScript(scans)
  {
    && ScriptFollows(n, NothingSent(n), scans)
    && forall ci :: 0 <= ci < n ==> AfterScript(n, NothingSent(n), scans)[ci][0] >= 0
  }

  // In a sequential script each component is in exactly one scan.
  predicate SequentialScan(n: nat, s: ScanInfo)
    requires GoodInfo(s)
  {
    ComponentsOk(n, s) && s.ss == 0 && s.se == DCTSIZE2 - 1 && s.ah == 0 && s.al == 0
  }

  ghost predicate AcceptsSequential(n: nat, scans: seq<ScanInfo>)
    requires GoodScript(scans)
  {
    && (forall i :: 0 <= i < |scans| ==> SequentialScan(n, scans[i]))
    && (forall i, j, ci :: 0 <= i < j < |scans| && InScan(scans[i], ci) ==> !InScan(scans[j], ci))
    && (forall ci :: 0 <= ci < n ==> SentBy(scans, ci))
  }

  predicate SentBy(scans: seq<ScanInfo>, ci: int)
    requires GoodScript(scans)
  {
    exists i :: 0 <= i < |scans| && InScan(scans[i], ci)
  }

  ghost predicate Accepts(n: nat, scans: seq<ScanInfo>)
    requires GoodScript(scans)
  {
    scans != [] && if IsProgressive(scans) then AcceptsProgressive(n, scans) else AcceptsSequential(n, scans)
  }

  // ---- validate_script ---------------------------------------------------------------------------------------------

  lemma {:induction false} FollowsSnoc(n: nat, pos: Positions, a: seq<ScanInfo>, s: ScanInfo, b: seq<ScanInfo>)
    requires GoodPos(n, pos) && GoodScript(a) && GoodInfo(s) && GoodScript(b)
    ensures GoodScript(a + [s] + b)
    ensures ScriptFollows(n, pos, a + [s] + b) ==> ScriptFollows(n, pos, a) && ScanFollows(n, AfterScript(n, pos, a), s)
    ensures ScriptFollows(n, pos, a) && ScanFollows(n, AfterScript(n, pos, a), s) ==>
              ScriptFollows(n, pos, a + [s]) && AfterScript(n, pos, a + [s]) == AfterScan(n, AfterScript(n, pos, a), s)
    decreases |a|
  {
    hide ScanFollows;
    var all := a + [s] + b;
    if a == [] {
      assert all[0] == s && all[1..] == b && a + [s] == [s] && [s][1..] == [];
    } else {
      assert all[0] == a[0] && all[1..] == a[1..] + [s] + b && (a + [s])[0] == a[0] && (a + [s])[1..] == a[1..] + [s];
      FollowsParameters(n, pos, a[0]);
      if ScanFollows(n, pos, a[0]) { FollowsSnoc(n, AfterScan(n, pos, a[0]), a[1..], s, b); }
    }
  }

  lemma FollowsParameters(n: nat, pos: Positions, s: ScanInfo)
    requires GoodPos(n, pos) && GoodInfo(s)
    ensures ScanFollows(n, pos, s) ==> ParametersOk(s)
  {
  }

  // The array holds the positions.
  predicate Holds(a: array2<int>, n: nat, pos: Positions) reads a {
    && a.Length0 == n && a.Length1 == DCTSIZE2 && GoodPos(n, pos)
    && forall ci, k :: 0 <= ci < n && 0 <= k < DCTSIZE2 ==> a[ci, k] == pos[ci][k]
  }

  // The checks on component indexes.
  method CheckComponents(n: nat, s: ScanInfo) returns (ok: bool)
    requires GoodInfo(s)
    ensures ok <==> ComponentsOk(n, s)
  {
    if s.compsInScan <= 0 || s.compsInScan > MAX_COMPS_IN_SCAN {
      return false;
    }
    for ci := 0 to s.compsInScan
      invariant forall i :: 0 <= i < ci ==> 0 <= s.index[i] < n
      invariant forall i :: 0 < i < ci ==> s.index[i - 1] < s.index[i]
    {
      var thisi := s.index[ci];
      if thisi < 0 || thisi >= n {
        return false;
      }
      if ci > 0 && thisi <= s.index[ci - 1] {
        return false;
      }
    }
    ok := true;
  }

  // The checks on one component, with the new bit positions put in on the way.
  method CheckCoefs(a: array2<int>, s: ScanInfo, c: nat, ghost p: seq<int>) returns (ok: bool)
    requires a.Length1 == DCTSIZE2 && c < a.Length0 && ParametersOk(s) && |p| == DCTSIZE2
    requires forall k :: 0 <= k < DCTSIZE2 ==> a[c, k] == p[k]
    modifies a
    ensures ok <==> Extends(p, s)
    ensures forall i, k :: 0 <= i < a.Length0 && 0 <= k < DCTSIZE2 && i != c ==> a[i, k] == old(a[i, k])
    ensures ok ==> forall k :: 0 <= k < DCTSIZE2 ==> a[c, k] == Mark(p, s.ss, s.se, s.al)[k]
  {
    if s.ss != 0 && a[c, 0] < 0 {
      return false;
    }
    for k := s.ss to s.se + 1
      invariant forall j :: 0 <= j < DCTSIZE2 ==> a[c, j] == if s.ss <= j < k then s.al else p[j]
      invariant forall i, j :: 0 <= i < a.Length0 && 0 <= j < DCTSIZE2 && i != c ==> a[i, j] == old(a[i, j])
      invariant forall j :: s.ss <= j < k ==> if p[j] < 0 then s.ah == 0 else s.ah == p[j] && s.al == s.ah - 1
    {
      if a[c, k] < 0 {
        if s.ah != 0 {
          return false;
        }
      } else if s.ah != a[c, k] || s.al != s.ah - 1 {
        return false;
      }
      a[c, k] := s.al;
    }
    ok := true;
  }

  predicate Earlier(s: ScanInfo, ci: int, c: int)
    requires GoodInfo(s)
  {
    exists j :: 0 <= j < ci && j < MAX_COMPS_IN_SCAN && s.index[j] == c
  }

  // What the array holds when the first ci components of the scan have been seen to.
  predicate HoldsPart(a: array2<int>, n: nat, pos: Positions, s: ScanInfo, ci: int) reads a
    requires GoodInfo(s) && ParametersOk(s)
  {
    && a.Length0 == n && a.Length1 == DCTSIZE2 && GoodPos(n, pos)
    && forall c, k :: 0 <= c < n && 0 <= k < DCTSIZE2 ==>
         a[c, k] == if Earlier(s, ci, c) then Mark(pos[c], s.ss, s.se, s.al)[k] else pos[c][k]
  }

  method CheckProgressive(a: array2<int>, n: nat, s: ScanInfo, ghost pos: Positions) returns (ok: bool)
    requires Holds(a, n, pos) && GoodInfo(s) && ComponentsOk(n, s)
    modifies a
    ensures ok <==> ScanFollows(n, pos, s)
    ensures ok ==> Holds(a, n, AfterScan(n, pos, s))
  {
    hide Extends, Mark;
    if s.ss < 0 || s.ss >= DCTSIZE2 || s.se < s.ss || s.se >= DCTSIZE2 || s.ah < 0 || s.ah > MAX_AH_AL || s.al < 0
        || s.al > MAX_AH_AL {
      return false;
    }
    if s.ss == 0 {
      if s.se != 0 {
        return false;
      }
    } else if s.compsInScan != 1 {
      return false;
    }
    NoneEarlier(s);
    for ci := 0 to s.compsInScan
      invariant HoldsPart(a, n, pos, s, ci)
      invariant forall i :: 0 <= i < ci ==> Extends(pos[s.index[i]], s)
    {
      NotEarlier(n, s, ci);
      ghost var c := s.index[ci];
      ok := CheckCoefs(a, s, s.index[ci], pos[s.index[ci]]);
      if !ok {
        return;
      }
    }
    AllEarlier(s);
    ok := true;
  }

  lemma NoneEarlier(s: ScanInfo)
    requires GoodInfo(s)
    ensures forall c :: !Earlier(s, 0, c)
  {
  }

  lemma NotEarlier(n: nat, s: ScanInfo, ci: int)
    requires GoodInfo(s) && ComponentsOk(n, s) && 0 <= ci < s.compsInScan
    ensures !Earlier(s, ci, s.index[ci])
    ensures forall c :: Earlier(s, ci + 1, c) <==> Earlier(s, ci, c) || c == s.index[ci]
  {
    forall j | 0 <= j < ci ensures s.index[j] < s.index[ci] { Increasing(n, s, j, ci); }
  }

  lemma {:induction false} Increasing(n: nat, s: ScanInfo, i: int, j: int)
    requires GoodInfo(s) && ComponentsOk(n, s) && 0 <= i < j < s.compsInScan
    ensures s.index[i] < s.index[j]
    decreases j
  {
    if i < j - 1 { Increasing(n, s, i, j - 1); }
  }

  lemma AllEarlier(s: ScanInfo)
    requires GoodInfo(s) && s.compsInScan <= MAX_COMPS_IN_SCAN
    ensures forall c :: Earlier(s, s.compsInScan, c) <==> InScan(s, c)
  {
  }

  // What is wrong: an empty script, a scan, or a component that is never sent.
  datatype Verdict = Good(progressive: bool) | Empty | BadScan(scanno: nat) | MissingData

  // All scans are in order, but they send no DC of some component.
  predicate DcLeftOut(n: nat, scans: seq<ScanInfo>)
    requires GoodScript(scans)
  {
    && ScriptFollows(n, NothingSent(n), scans)
    && exists ci :: 0 <= ci < n && AfterScript(n, NothingSent(n), scans)[ci][0] < 0
  }

  method ValidateProgressive(n: nat, scans: seq<ScanInfo>) returns (v: Verdict, a: array2<int>)
    requires GoodScript(scans) && scans != [] && IsProgressive(scans)
    ensures v == Good(true) || v.BadScan? || v == MissingData
    ensures v == Good(true) <==> AcceptsProgressive(n, scans)
    ensures v == Good(true) ==> Holds(a, n, AfterScript(n, NothingSent(n), scans))
    ensures v.BadScan? ==> BadAt(n, scans, v.scanno)
    ensures v == MissingData ==> DcLeftOut(n, scans)
  {
    hide ScanFollows, ComponentsOk, InScan, BadAt;
    a := new int[n, DCTSIZE2]((_, _) => -1);
    ghost var pos := NothingSent(n);
    NothingBefore(n, scans);
    for i := 0 to |scans|
      invariant fresh(a) && GoodScript(scans[..i]) && GoodPos(n, pos) && ScriptFollows(n, NothingSent(n), scans[..i])
      invariant pos == AfterScript(n, NothingSent(n), scans[..i]) && Holds(a, n, pos)
    {
      OneScanMore(n, scans, i);
      var ok := CheckComponents(n, scans[i]);
      if ok {
        ok := CheckProgressive(a, n, scans[i], pos);
      } else {
        NotWithout(n, pos, scans[i]);
      }
      if !ok {
        return BadScan(i + 1), a;
      }
      pos := AfterScan(n, pos, scans[i]);
    }
    assert scans[..|scans|] == scans;
    for ci := 0 to n
      invariant forall c :: 0 <= c < ci ==> a[c, 0] >= 0
    {
      if a[ci, 0] < 0 {
        return MissingData, a;
      }
    }
    v := Good(true);
  }

  // The scans before this one are in order, but it is not.
  predicate BadAt(n: nat, scans: seq<ScanInfo>, scanno: nat)
    requires GoodScript(scans)
  {
    && 0 < scanno <= |scans| && GoodScript(scans[..scanno - 1]) && ScriptFollows(n, NothingSent(n), scans[..scanno - 1])
    && !ScanFollows(n, AfterScript(n, NothingSent(n), scans[..scanno - 1]), scans[scanno - 1])
  }

  lemma NothingBefore(n: nat, scans: seq<ScanInfo>)
    ensures ScriptFollows(n, NothingSent(n), scans[..0]) && AfterScript(n, NothingSent(n), scans[..0]) == NothingSent(n)
  {
  }

  lemma NotWithout(n: nat, pos: Positions, s: ScanInfo)
    requires GoodPos(n, pos) && GoodInfo(s) && !ComponentsOk(n, s)
    ensures !ScanFollows(n, pos, s)
  {
  }

  lemma OneScanMore(n: nat, scans: seq<ScanInfo>, i: nat)
    requires GoodScript(scans) && i < |scans|
    requires GoodScript(scans[..i]) && ScriptFollows(n, NothingSent(n), scans[..i])
    ensures GoodScript(scans[..i + 1])
    ensures var pos := AfterScript(n, NothingSent(n), scans[..i]);
            if ScanFollows(n, pos, scans[i])
            then ScriptFollows(n, NothingSent(n), scans[..i + 1]) && ParametersOk(scans[i])
                 && AfterScript(n, NothingSent(n), scans[..i + 1]) == AfterScan(n, pos, scans[i])
            else BadAt(n, scans, i + 1) && !ScriptFollows(n, NothingSent(n), scans)
  {
    hide ScanFollows;
    var a, b := scans[..i], scans[i + 1..];
    assert a + [scans[i]] == scans[..i + 1] && a + [scans[i]] + b == scans;
    FollowsSnoc(n, NothingSent(n), a, scans[i], b);
    FollowsParameters(n, AfterScript(n, NothingSent(n), a), scans[i]);
  }

  // ---- Sequential scripts ------------------------------------------------------------------------------------------

  // The flags say which components have been sent, up to component j of scan i.
  predicate Flags(sent: array<bool>, n: nat, scans: seq<ScanInfo>, i: nat, j: int)
    requires GoodScript(scans) && i <= |scans|
    reads sent
  {
    && sent.Length == n
    && forall c :: 0 <= c < n ==> (sent[c] <==> SentBefore(scans, i, c) || (i < |scans| && Earlier(scans[i], j, c)))
  }

  predicate SentBefore(scans: seq<ScanInfo>, i: nat, c: int)
    requires GoodScript(scans) && i <= |scans|
  {
    exists x :: 0 <= x < i && InScan(scans[x], c)
  }

  ghost predicate OnlyOnce(scans: seq<ScanInfo>, i: nat)
    requires GoodScript(scans) && i <= |scans|
  {
    forall x, y, ci :: 0 <= x < y < i && InScan(scans[x], ci) ==> !InScan(scans[y], ci)
  }

  // The scans before this one are in order, but it is not, or repeats one of their components.
  ghost predicate BadSequentialAt(n: nat, scans: seq<ScanInfo>, scanno: nat)
    requires GoodScript(scans)
  {
    && 0 < scanno <= |scans| && OnlyOnce(scans, scanno - 1)
    && (forall x :: 0 <= x < scanno - 1 ==> SequentialScan(n, scans[x]))
    && (!SequentialScan(n, scans[scanno - 1]) || Repeats(scans, scanno - 1))
  }

  ghost predicate Repeats(scans: seq<ScanInfo>, i: nat)
    requires GoodScript(scans) && i < |scans|
  {
    exists c :: InScan(scans[i], c) && SentBefore(scans, i, c)
  }

  // All scans are in order, but some component is in none of them.
  ghost predicate LeavesOut(n: nat, scans: seq<ScanInfo>)
    requires GoodScript(scans)
  {
    && (forall x :: 0 <= x < |scans| ==> SequentialScan(n, scans[x])) && OnlyOnce(scans, |scans|)
    && exists ci :: 0 <= ci < n && !SentBy(scans, ci)
  }

  method ValidateSequential(n: nat, scans: seq<ScanInfo>) returns (v: Verdict)
    requires GoodScript(scans) && scans != [] && !IsProgressive(scans)
    ensures v == Good(false) || v.BadScan? || v == MissingData
    ensures v == Good(false) <==> AcceptsSequential(n, scans)
    ensures v.BadScan? ==> BadSequentialAt(n, scans, v.scanno)
    ensures v == MissingData ==> LeavesOut(n, scans)
  {
    hide InScan, Earlier, ComponentsOk, OnlyOnce, SentBefore, SentBy;
    var sent := new bool[n](_ => false);
    FlagsStart(scans);
    for i := 0 to |scans|
      invariant forall x :: 0 <= x < i ==> SequentialScan(n, scans[x])
      invariant Flags(sent, n, scans, i, 0) && OnlyOnce(scans, i)
    {
      var s := scans[i];
      var ok := CheckComponents(n, s);
      if !ok {
        return BadScan(i + 1);
      }
      if s.ss != 0 || s.se != DCTSIZE2 - 1 || s.ah != 0 || s.al != 0 {
        return BadScan(i + 1);
      }
      IndexRange(n, s);
      for j := 0 to s.compsInScan
        invariant Flags(sent, n, scans, i, j)
        invariant forall x :: 0 <= x < j ==> !SentBefore(scans, i, s.index[x])
      {
        NotEarlier(n, s, j);
        if sent[s.index[j]] {
          Twice(n, scans, i, j);
          return BadScan(i + 1);
        }
        sent[s.index[j]] := true;
      }
      NextScan(n, scans, i);
      if i + 1 < |scans| { NoneEarlier(scans[i + 1]); }
    }
    for ci := 0 to n
      invariant forall c :: 0 <= c < ci ==> sent[c]
    {
      if !sent[ci] {
        NotSent(scans, ci);
        return MissingData;
      }
    }
    AllSent(n, scans);
    v := Good(false);
  }

  lemma FlagsStart(scans: seq<ScanInfo>)
    requires GoodScript(scans) && scans != []
    ensures OnlyOnce(scans, 0) && forall c :: !SentBefore(scans, 0, c) && !Earlier(scans[0], 0, c)
  {
  }

  lemma IndexRange(n: nat, s: ScanInfo)
    requires GoodInfo(s) && ComponentsOk(n, s)
    ensures 0 < s.compsInScan <= MAX_COMPS_IN_SCAN && forall i :: 0 <= i < s.compsInScan ==> 0 <= s.index[i] < n
    ensures forall c :: !Earlier(s, 0, c)
  {
  }

  lemma Twice(n: nat, scans: seq<ScanInfo>, i: nat, j: nat)
    requires GoodScript(scans) && i < |scans| && j < scans[i].compsInScan <= MAX_COMPS_IN_SCAN
        && SentBefore(scans, i, scans[i].index[j])
    ensures !AcceptsSequential(n, scans) && Repeats(scans, i)
  {
    var x :| 0 <= x < i && InScan(scans[x], scans[i].index[j]);
    assert InScan(scans[i], scans[i].index[j]);
  }

  lemma NextScan(n: nat, scans: seq<ScanInfo>, i: nat)
    requires GoodScript(scans) && i < |scans| && scans[i].compsInScan <= MAX_COMPS_IN_SCAN && OnlyOnce(scans, i)
    requires forall x :: 0 <= x < scans[i].compsInScan ==> !SentBefore(scans, i, scans[i].index[x])
    ensures OnlyOnce(scans, i + 1)
    ensures forall c ::
        SentBefore(scans, i + 1, c) <==> SentBefore(scans, i, c) || Earlier(scans[i], scans[i].compsInScan, c)
  {
    AllEarlier(scans[i]);
  }

  lemma NotSent(scans: seq<ScanInfo>, c: int)
    requires GoodScript(scans) && !SentBefore(scans, |scans|, c)
    ensures !SentBy(scans, c)
  {
  }

  lemma AllSent(n: nat, scans: seq<ScanInfo>)
    requires GoodScript(scans) && OnlyOnce(scans, |scans|)
    requires forall c :: 0 <= c < n ==> SentBefore(scans, |scans|, c)
    ensures forall i, j, ci :: 0 <= i < j < |scans| && InScan(scans[i], ci) ==> !InScan(scans[j], ci)
    ensures forall ci :: 0 <= ci < n ==> SentBy(scans, ci)
  {
    hide InScan;
    forall ci | 0 <= ci < n ensures SentBy(scans, ci) { assert SentBefore(scans, |scans|, ci); }
  }

  // The whole check.
  method ValidateScript(n: nat, scans: seq<ScanInfo>) returns (v: Verdict)
    requires GoodScript(scans)
    ensures v.Good? <==> Accepts(n, scans)
    ensures v.Good? ==> v.progressive == IsProgressive(scans)
    ensures v.BadScan? ==>
        scans != [] && if IsProgressive(scans) then BadAt(n, scans, v.scanno) else BadSequentialAt(n, scans, v.scanno)
    ensures v == MissingData ==>
        scans != [] && if IsProgressive(scans) then DcLeftOut(n, scans) else LeavesOut(n, scans)
    ensures v == Empty <==> scans == []
  {
    hide AcceptsProgressive, AcceptsSequential, BadAt, BadSequentialAt, DcLeftOut, LeavesOut;
    if scans == [] {
      return Empty;
    }
    if scans[0].ss != 0 || scans[0].se != DCTSIZE2 - 1 {
      var a;
      v, a := ValidateProgressive(n, scans);
    } else {
      v := ValidateSequential(n, scans);
    }
  }
}
