// jpeg_simple_progression of jcparam.c: the recommended progressive script, filled in
// through a place that moves along the array.
module SimpleProgression {
  import opened ProgApprox
  import opened ScanScript
  import opened ScriptBits

  // ---- The script for YCbCr images ----------------------------------------------------------------------------------

  ghost predicate Takes(n: nat, pos: Positions, scans: seq<ScanInfo>, q: Positions) {
    && GoodPos(n, pos) && GoodScript(scans) && ScriptFollows(n, pos, scans) && AfterScript(n, pos, scans) == q
  }

  lemma TakesOn(n: nat, pos: Positions, a: seq<ScanInfo>, q: Positions, b: seq<ScanInfo>, r: Positions)
    requires Takes(n, pos, a, q) && Takes(n, q, b, r)
    ensures Takes(n, pos, a + b, r)
  {
    hide ScriptFollows, AfterScript;
    FollowsConcat(n, pos, a, b);
  }

  // A scan of one component in front.
  lemma OneFirst(n: nat, pos: Positions, ci: nat, ss: int, se: int, ah: int, al: int, b: seq<ScanInfo>, r: Positions)
    requires GoodPos(n, pos) && ci < n && ParametersOk(OneComp(ci, ss, se, ah, al))
        && Extends(pos[ci], OneComp(ci, ss, se, ah, al))
    requires Takes(n, pos[ci := Mark(pos[ci], ss, se, al)], b, r)
    ensures Takes(n, pos, [OneComp(ci, ss, se, ah, al)] + b, r)
  {
    hide ScanFollows, AfterScan, Mark;
    OneCompFollows(n, pos, ci, ss, se, ah, al);
    var s := OneComp(ci, ss, se, ah, al);
    assert ([s] + b)[0] == s && ([s] + b)[1..] == b;
  }

  // The refinement down to bit 0 of the AC coefficients of three components.
  lemma LastScans(p: seq<int>)
    requires |p| == DCTSIZE2 && p[0] == 0 && forall k :: 1 <= k < DCTSIZE2 ==> p[k] == 1
    ensures Takes(3, Alike(3, p), [OneComp(2, 1, 63, 1, 0), OneComp(1, 1, 63, 1, 0), OneComp(0, 1, 63, 1, 0)],
        Alike(3, AllZeros()))
  {
    hide ScriptFollows, AfterScript;
    var z := Mark(p, 1, 63, 0);
    assert z == AllZeros();
    var s0, s1, s2 := OneComp(0, 1, 63, 1, 0), OneComp(1, 1, 63, 1, 0), OneComp(2, 1, 63, 1, 0);
    var all := Alike(3, z);
    NoScans(3, all);
    assert [p, z, z][0 := z] == all && [p, p, z][1 := z] == [p, z, z] && Alike(3, p)[2 := z] == [p, p, z];
    OneFirst(3, [p, z, z], 0, 1, 63, 1, 0, [], all);
    assert [s0] + [] == [s0];
    OneFirst(3, [p, p, z], 1, 1, 63, 1, 0, [s0], all);
    assert [s1] + [s0] == [s1, s0];
    OneFirst(3, Alike(3, p), 2, 1, 63, 1, 0, [s1, s0], all);
    assert [s2] + [s1, s0] == [s2, s1, s0];
  }

  lemma NoScans(n: nat, pos: Positions)
    requires GoodPos(n, pos)
    ensures Takes(n, pos, [], pos)
  {
  }

  // The first AC scans: afterwards all AC coefficients are known down to bit 1.
  lemma FirstScans(p: seq<int>, q: seq<int>)
    requires |p| == |q| == DCTSIZE2 && p[0] == 1 && (forall k :: 1 <= k < DCTSIZE2 ==> p[k] == -1)
        && forall k :: 0 <= k < DCTSIZE2 ==> q[k] == 1
    ensures Takes(3, Alike(3, p),
        [OneComp(0, 1, 5, 0, 2), OneComp(2, 1, 63, 0, 1), OneComp(1, 1, 63, 0, 1), OneComp(0, 6, 63, 0, 2),
        OneComp(0, 1, 63, 2, 1)],
                  Alike(3, q))
  {
    hide ScriptFollows, AfterScript;
    var y1 := Mark(p, 1, 5, 2);
    var y2 := Mark(y1, 6, 63, 2);
    assert Mark(y2, 1, 63, 1) == q && Mark(p, 1, 63, 1) == q;
    var all := Alike(3, q);
    NoScans(3, all);
    var a, b, c, d, e := OneComp(0, 1, 5, 0, 2), OneComp(2, 1, 63, 0, 1), OneComp(1, 1, 63, 0, 1),
        OneComp(0, 6, 63, 0, 2), OneComp(0, 1, 63, 2, 1);
    assert [y2, q, q][0 := q] == all && [y1, q, q][0 := y2] == [y2, q, q] && [y1, p, q][1 := q] == [y1, q, q];
    assert [y1, p, p][2 := q] == [y1, p, q] && Alike(3, p)[0 := y1] == [y1, p, p];
    OneFirst(3, [y2, q, q], 0, 1, 63, 2, 1, [], all);
    assert [e] + [] == [e];
    OneFirst(3, [y1, q, q], 0, 6, 63, 0, 2, [e], all);
    assert [d] + [e] == [d, e];
    OneFirst(3, [y1, p, q], 1, 1, 63, 0, 1, [d, e], all);
    assert [c] + [d, e] == [c, d, e];
    OneFirst(3, [y1, p, p], 2, 1, 63, 0, 1, [c, d, e], all);
    assert [b] + [c, d, e] == [b, c, d, e];
    OneFirst(3, Alike(3, p), 0, 1, 5, 0, 2, [b, c, d, e], all);
    assert [a] + [b, c, d, e] == [a, b, c, d, e];
  }

  lemma YccIsComplete()
    ensures IsProgressive(ForYcc()) && AcceptsProgressive(3, ForYcc())
    ensures AfterScript(3, NothingSent(3), ForYcc()) == Alike(3, AllZeros())
  {
    hide ScriptFollows, AfterScript, DcScans;
    var p0 := seq(DCTSIZE2, _ => -1);
    var p1 := Mark(p0, 0, 0, 1);
    var p2 := seq(DCTSIZE2, _ => 1);
    var p3 := Mark(p2, 0, 0, 0);
    assert Alike(3, p0) == NothingSent(3);
    DcLeads(3, p0, 0, 1);
    FirstScans(p1, p2);
    DcLeads(3, p2, 1, 0);
    LastScans(p3);
    var a, c := DcScans(3, 0, 1), DcScans(3, 1, 0);
    var b := [OneComp(0, 1, 5, 0, 2), OneComp(2, 1, 63, 0, 1), OneComp(1, 1, 63, 0, 1), OneComp(0, 6, 63, 0, 2),
        OneComp(0, 1, 63, 2, 1)];
    var d := [OneComp(2, 1, 63, 1, 0), OneComp(1, 1, 63, 1, 0), OneComp(0, 1, 63, 1, 0)];
    TakesOn(3, Alike(3, p0), a, Alike(3, p1), b, Alike(3, p2));
    TakesOn(3, Alike(3, p0), a + b, Alike(3, p2), c, Alike(3, p3));
    TakesOn(3, Alike(3, p0), a + b + c, Alike(3, p3), d, Alike(3, AllZeros()));
    DcScansFirst(3, 0, 1);
  }

  // ---- Filling in the array ----------------------------------------------------------------------------------------

  // Each step adds to the scans in front of it and leaves the rest alone.
  method FillAScan(a: array<ScanInfo>, p: nat, ci: int, ss: int, se: int, ah: int, al: int) returns (q: nat)
    requires p < a.Length
    modifies a
    ensures q == p + 1 && a[..q] == old(a[..p]) + [OneComp(ci, ss, se, ah, al)] && a[q..] == old(a[q..])
  {
    a[p] := OneComp(ci, ss, se, ah, al);
    q := p + 1;
  }

  method FillScans(a: array<ScanInfo>, p: nat, ncomps: nat, ss: int, se: int, ah: int, al: int) returns (q: nat)
    requires p + ncomps <= a.Length
    modifies a
    ensures q == p + ncomps && a[..q] == old(a[..p]) + PerComp(0, ncomps, ss, se, ah, al) && a[q..] == old(a[q..])
  {
    q := p;
    for ci := 0 to ncomps
      invariant q == p + ci && forall i :: 0 <= i < ci ==> a[p + i] == OneComp(i, ss, se, ah, al)
      invariant forall i :: 0 <= i < a.Length && !(p <= i < q) ==> a[i] == old(a[i])
    {
      a[q] := OneComp(ci, ss, se, ah, al);
      q := q + 1;
    }
    assert forall i :: 0 <= i < ncomps ==> a[..q][p + i] == PerComp(0, ncomps, ss, se, ah, al)[i];
  }

  method FillDcScans(a: array<ScanInfo>, p: nat, ncomps: nat, ah: int, al: int) returns (q: nat)
    requires p + |DcScans(ncomps, ah, al)| <= a.Length
    modifies a
    ensures q == p + |DcScans(ncomps, ah, al)| && a[..q] == old(a[..p]) + DcScans(ncomps, ah, al)
        && a[q..] == old(a[q..])
  {
    if ncomps <= MAX_COMPS_IN_SCAN {
      var index: seq<int> := [0, 0, 0, 0];
      for ci := 0 to ncomps
        invariant |index| == 4 && forall i :: 0 <= i < 4 ==> index[i] == if i < ci then i else 0
      {
        index := index[ci := ci];
      }
      assert index == seq(MAX_COMPS_IN_SCAN, i => if i < ncomps then i else 0);
      a[p] := ScanInfo(ncomps, index, 0, 0, ah, al);
      q := p + 1;
    } else {
      q := FillScans(a, p, ncomps, 0, 0, ah, al);
    }
  }

  method FillForYcc(a: array<ScanInfo>) returns (p: nat)
    requires a.Length >= 10
    modifies a
    ensures p == 10 && a[..p] == ForYcc()
  {
    hide DcScans, OneComp;
    p := FillDcScans(a, 0, 3, 0, 1);
    p := FillAScan(a, p, 0, 1, 5, 0, 2);
    p := FillAScan(a, p, 2, 1, 63, 0, 1);
    p := FillAScan(a, p, 1, 1, 63, 0, 1);
    p := FillAScan(a, p, 0, 6, 63, 0, 2);
    p := FillAScan(a, p, 0, 1, 63, 2, 1);
    assert a[..p] == DcScans(3, 0, 1) + [OneComp(0, 1, 5, 0, 2), OneComp(2, 1, 63, 0, 1), OneComp(1, 1, 63, 0, 1),
                                         OneComp(0, 6, 63, 0, 2), OneComp(0, 1, 63, 2, 1)];
    p := FillDcScans(a, p, 3, 1, 0);
    p := FillAScan(a, p, 2, 1, 63, 1, 0);
    p := FillAScan(a, p, 1, 1, 63, 1, 0);
    p := FillAScan(a, p, 0, 1, 63, 1, 0);
  }

  method FillAllPurpose(a: array<ScanInfo>, ncomps: nat) returns (p: nat)
    requires |AllPurpose(ncomps)| <= a.Length
    modifies a
    ensures p == |AllPurpose(ncomps)| && a[..p] == AllPurpose(ncomps)
  {
    hide PerComp, DcScans;
    p := FillDcScans(a, 0, ncomps, 0, 1);
    p := FillScans(a, p, ncomps, 1, 5, 0, 2);
    p := FillScans(a, p, ncomps, 6, 63, 0, 2);
    p := FillScans(a, p, ncomps, 1, 63, 2, 1);
    p := FillDcScans(a, p, ncomps, 1, 0);
    p := FillScans(a, p, ncomps, 1, 63, 1, 0);
    SixParts(DcScans(ncomps, 0, 1), PerComp(0, ncomps, 1, 5, 0, 2), PerComp(0, ncomps, 6, 63, 0, 2),
        PerComp(0, ncomps, 1, 63, 2, 1),
             DcScans(ncomps, 1, 0), PerComp(0, ncomps, 1, 63, 1, 0));
  }

  lemma SixParts(a: seq<ScanInfo>, b: seq<ScanInfo>, c: seq<ScanInfo>, d: seq<ScanInfo>, e: seq<ScanInfo>,
      f: seq<ScanInfo>)
    ensures [] + a + b + c + d + e + f == a + (b + (c + (d + (e + f))))
  {
  }

  // ---- What the scans are, one by one -------------------------------------------------------------------------------

  // Entry k is a scan of these components with these parameters.
  ghost predicate Entry(scans: seq<ScanInfo>, k: nat, comps: seq<nat>, ss: int, se: int, ah: int, al: int) {
    && k < |scans| && scans[k].compsInScan == |comps| <= |scans[k].index|
    && (forall i :: 0 <= i < |comps| ==> scans[k].index[i] == comps[i])
    && scans[k].ss == ss && scans[k].se == se && scans[k].ah == ah && scans[k].al == al
  }

  // From entry k on, one scan for each of n components in turn.
  ghost predicate Entries(scans: seq<ScanInfo>, k: nat, n: nat, ss: int, se: int, ah: int, al: int) {
    forall c: nat :: c < n ==> Entry(scans, k + c, [c], ss, se, ah, al)
  }

  // The ten scans of a YCbCr image.
  ghost predicate YccScans(scans: seq<ScanInfo>) {
    && |scans| == 10
    && Entry(scans, 0, [0, 1, 2], 0, 0, 0, 1)
    && Entry(scans, 1, [0], 1, 5, 0, 2)
    && Entry(scans, 2, [2], 1, 63, 0, 1)
    && Entry(scans, 3, [1], 1, 63, 0, 1)
    && Entry(scans, 4, [0], 6, 63, 0, 2)
    && Entry(scans, 5, [0], 1, 63, 2, 1)
    && Entry(scans, 6, [0, 1, 2], 0, 0, 1, 0)
    && Entry(scans, 7, [2], 1, 63, 1, 0)
    && Entry(scans, 8, [1], 1, 63, 1, 0)
    && Entry(scans, 9, [0], 1, 63, 1, 0)
  }

  // The scans of any other image: the DC scans are joined when a scan can hold all components.
  ghost predicate OtherScans(n: nat, scans: seq<ScanInfo>) {
    if n <= 4 then
      && |scans| == 2 + 4 * n
      && Entry(scans, 0, seq(n, i => i), 0, 0, 0, 1)
      && Entries(scans, 1, n, 1, 5, 0, 2)
      && Entries(scans, 1 + n, n, 6, 63, 0, 2)
      && Entries(scans, 1 + 2 * n, n, 1, 63, 2, 1)
      && Entry(scans, 1 + 3 * n, seq(n, i => i), 0, 0, 1, 0)
      && Entries(scans, 2 + 3 * n, n, 1, 63, 1, 0)
    else
      && |scans| == 6 * n
      && Entries(scans, 0, n, 0, 0, 0, 1)
      && Entries(scans, n, n, 1, 5, 0, 2)
      && Entries(scans, 2 * n, n, 6, 63, 0, 2)
      && Entries(scans, 3 * n, n, 1, 63, 2, 1)
      && Entries(scans, 4 * n, n, 0, 0, 1, 0)
      && Entries(scans, 5 * n, n, 1, 63, 1, 0)
  }

  lemma YccScansAre()
    ensures YccScans(ForYcc())
  {
  }

  lemma EntriesWithin(before: seq<ScanInfo>, n: nat, ss: int, se: int, ah: int, al: int, after: seq<ScanInfo>)
    ensures Entries(before + (PerComp(0, n, ss, se, ah, al) + after), |before|, n, ss, se, ah, al)
  {
    var run := PerComp(0, n, ss, se, ah, al);
    var scans := before + (run + after);
    forall c: nat | c < n ensures Entry(scans, |before| + c, [c], ss, se, ah, al) {
      assert scans[|before| + c] == run[c] == OneComp(c, ss, se, ah, al);
    }
  }

  lemma DcWithin(before: seq<ScanInfo>, n: nat, ah: int, al: int, after: seq<ScanInfo>)
    ensures var scans := before + (DcScans(n, ah, al) + after);
            if n <= 4 then Entry(scans, |before|, seq(n, i => i), 0, 0, ah, al)
            else Entries(scans, |before|, n, 0, 0, ah, al)
  {
    if n <= 4 {
      var scans := before + (DcScans(n, ah, al) + after);
      assert scans[|before|] == DcScans(n, ah, al)[0];
    } else {
      EntriesWithin(before, n, 0, 0, ah, al, after);
    }
  }

  lemma OtherScansAre(n: nat)
    ensures OtherScans(n, AllPurpose(n))
  {
    hide Entry, Entries, DcScans, PerComp;
    var a, b, c, d := DcScans(n, 0, 1), PerComp(0, n, 1, 5, 0, 2), PerComp(0, n, 6, 63, 0, 2),
        PerComp(0, n, 1, 63, 2, 1);
    var e, f := DcScans(n, 1, 0), PerComp(0, n, 1, 63, 1, 0);
    var scans := AllPurpose(n);
    assert scans == [] + (a + (b + (c + (d + (e + f)))));
    DcWithin([], n, 0, 1, b + (c + (d + (e + f))));
    EntriesWithin(a, n, 1, 5, 0, 2, c + (d + (e + f)));
    assert scans == (a + b) + (c + (d + (e + f)));
    EntriesWithin(a + b, n, 6, 63, 0, 2, d + (e + f));
    assert scans == (a + b + c) + (d + (e + f));
    EntriesWithin(a + b + c, n, 1, 63, 2, 1, e + f);
    assert scans == (a + b + c + d) + (e + f);
    DcWithin(a + b + c + d, n, 1, 0, f);
    assert scans == (a + b + c + d + e) + (f + []);
    EntriesWithin(a + b + c + d + e, n, 1, 63, 1, 0, []);
  }

  // jpeg_simple_progression: exactly the number of entries computed beforehand are
  // filled in; the script is accepted, and sends all bits of all coefficients.
  method SimpleProgression(ncomps: nat, ycc: bool) returns (script: array<ScanInfo>, numScans: nat)
    requires ncomps > 0
    ensures numScans ==
        (if ncomps == 3 && ycc then 10 else if ncomps > MAX_COMPS_IN_SCAN then 6 * ncomps else 2 + 4 * ncomps)
    ensures numScans <= script.Length
    ensures var scans := script[..numScans];
            && GoodScript(scans) && scans != [] && IsProgressive(scans) && AcceptsProgressive(ncomps, scans)
            && AfterScript(ncomps, NothingSent(ncomps), scans) == Alike(ncomps, AllZeros())
    ensures if ncomps == 3 && ycc then YccScans(script[..numScans]) else OtherScans(ncomps, script[..numScans])
  {
    hide YccScans, OtherScans;
    hide AcceptsProgressive, AfterScript, ScriptFollows, AllPurpose, ForYcc, NothingSent;
    if ncomps == 3 && ycc {
      numScans := 10;
    } else if ncomps > MAX_COMPS_IN_SCAN {
      numScans := 6 * ncomps;
    } else {
      numScans := 2 + 4 * ncomps;
    }
    var space := if numScans > 10 then numScans else 10;
    script := new ScanInfo[space](_ => OneComp(0, 0, 0, 0, 0));
    var p;
    if ncomps == 3 && ycc {
      p := FillForYcc(script);
      YccIsComplete();
      YccScansAre();
    } else {
      p := FillAllPurpose(script, ncomps);
      AllPurposeIsComplete(ncomps);
      OtherScansAre(ncomps);
    }
    assert p == numScans;
  }
}
