// What an accepted progressive script sends: no bit of a coefficient twice, and none
// out of turn; and the scripts of jpeg_simple_progression, which send everything.
module ScriptBits {
  import opened ProgApprox
  import opened ScanScript

  // ---- No bit is sent twice ----------------------------------------------------------------------------------------

  datatype Sent = Sent(ah: int, al: int)

  // The scans that touch coefficient k of component ci, in order.
  function Touches(scans: seq<ScanInfo>, ci: int, k: int): seq<Sent>
    requires GoodScript(scans)
  {
    if scans == [] then []
    else
      (if InScan(scans[0], ci) && scans[0].ss <= k <= scans[0].se then [Sent(scans[0].ah, scans[0].al)] else [])
      + Touches(scans[1..], ci, k)
  }

  // From bit position p on (-1: nothing has been sent) one bit at a time.
  predicate OneByOne(p: int, t: seq<Sent>, end: int)
    decreases |t|
  {
    if t == [] then end == p
    else
      && t[0].al >= 0
      && (p < 0 ==> t[0].ah == 0)
      && (p >= 0 ==> t[0].ah == p && t[0].al == p - 1)
      && OneByOne(t[0].al, t[1..], end)
  }

  lemma {:induction false} TouchesOneByOne(n: nat, pos: Positions, scans: seq<ScanInfo>, ci: nat, k: nat)
    requires GoodPos(n, pos) && GoodScript(scans) && ScriptFollows(n, pos, scans) && ci < n && k < DCTSIZE2
    ensures OneByOne(pos[ci][k], Touches(scans, ci, k), AfterScript(n, pos, scans)[ci][k])
    decreases |scans|
  {
    hide InScan;
    if scans != [] {
      var s, rest := scans[0], Touches(scans[1..], ci, k);
      TouchesOneByOne(n, AfterScan(n, pos, s), scans[1..], ci, k);
      if InScan(s, ci) && s.ss <= k <= s.se {
        ScanExtends(n, pos, s, ci);
        assert ([Sent(s.ah, s.al)] + rest)[1..] == rest;
      } else {
        assert [] + rest == rest;
      }
    }
  }

  lemma ScanExtends(n: nat, pos: Positions, s: ScanInfo, ci: nat)
    requires GoodPos(n, pos) && GoodInfo(s) && ScanFollows(n, pos, s) && InScan(s, ci) && ci < n
    ensures ParametersOk(s) && Extends(pos[ci], s)
  {
    var i :| 0 <= i < s.compsInScan && i < MAX_COMPS_IN_SCAN && s.index[i] == ci;
  }

  lemma {:induction false} Descending(p: int, t: seq<Sent>, end: int, i: nat)
    requires OneByOne(p, t, end) && i < |t|
    ensures p < 0 ==> t[0].ah == 0 && t[i].al == t[0].al - i
    ensures p >= 0 ==> t[i].al == p - i - 1
    ensures i > 0 ==> t[i].ah == t[i - 1].al == t[i].al + 1
    ensures t[|t| - 1].al == end
    decreases |t|
  {
    if i > 0 || |t| > 1 { Descending(t[0].al, t[1..], end, if i > 0 then i - 1 else 0); }
  }

  lemma {:induction false} AlNotNegative(p: int, t: seq<Sent>, end: int)
    requires OneByOne(p, t, end)
    ensures t == [] ==> end == p
    ensures t != [] ==> t[|t| - 1].al == end
    decreases |t|
  {
    if |t| > 1 { AlNotNegative(t[0].al, t[1..], end); }
  }

  // In an accepted script the scans of a coefficient start with Ah = 0; each further one
  // takes up where the last left off and goes down by exactly one bit. A coefficient that
  // is never touched stays unsent; DC coefficients are all sent.
  lemma EachBitOnce(n: nat, scans: seq<ScanInfo>, ci: nat, k: nat)
    requires GoodScript(scans) && AcceptsProgressive(n, scans) && ci < n && k < DCTSIZE2
    ensures var t, end := Touches(scans, ci, k), AfterScript(n, NothingSent(n), scans)[ci][k];
            && (t == [] ==> end == -1 && k > 0)
            && (t != [] ==> t[0].ah == 0 && t[|t| - 1].al == end)
            && (forall i :: 0 <= i < |t| ==> t[i].al == t[0].al - i)
            && (forall i :: 0 < i < |t| ==> t[i].ah == t[i - 1].al)
  {
    hide ScriptFollows, AfterScript, NothingSent;
    TouchesOneByOne(n, NothingSent(n), scans, ci, k);
    var t, end := Touches(scans, ci, k), AfterScript(n, NothingSent(n), scans)[ci][k];
    AlNotNegative(-1, t, end);
    forall i | 0 <= i < |t| ensures t[i].al == t[0].al - i && t[0].ah == 0 { Descending(-1, t, end, i); }
    forall i | 0 < i < |t| ensures t[i].ah == t[i - 1].al { Descending(-1, t, end, i); }
  }

  // The first scan of an accepted script is a first DC scan.
  lemma FirstScanIsDc(n: nat, scans: seq<ScanInfo>)
    requires GoodScript(scans) && Accepts(n, scans)
    ensures scans != [] && scans[0].ss == 0 && scans[0].ah == 0
  {
    if IsProgressive(scans) {
      assert ScanFollows(n, NothingSent(n), scans[0]);
      assert Extends(NothingSent(n)[scans[0].index[0]], scans[0]);
    }
  }

  // ---- reduce_script -----------------------------------------------------------------------------------------------

  // What becomes of one scan.
  function ReducedScan(s: ScanInfo, limSe: int): (r: seq<ScanInfo>)
    ensures |r| <= 1
  {
    if s.ss > limSe then [] else [if s.se > limSe then s.(se := limSe) else s]
  }

  function Reduced(scans: seq<ScanInfo>, limSe: int): (r: seq<ScanInfo>)
    ensures |r| <= |scans|
  {
    if scans == [] then []
    else
      var s := scans[|scans| - 1];
      Reduced(scans[..|scans| - 1], limSe) + ReducedScan(s, limSe)
  }

  lemma ReducedMore(scans: seq<ScanInfo>, i: nat, limSe: int)
    requires i < |scans|
    ensures Reduced(scans[..i + 1], limSe) == Reduced(scans[..i], limSe) + ReducedScan(scans[i], limSe)
  {
    assert scans[..i + 1][..i] == scans[..i];
  }

  // Adapts the script in place to blocks of fewer coefficients.
  method ReduceScript(a: array<ScanInfo>, numScans: nat, limSe: int) returns (count: nat)
    requires numScans <= a.Length
    modifies a
    ensures count <= numScans && a[..count] == Reduced(old(a[..numScans]), limSe)
    ensures a[numScans..] == old(a[numScans..])
  {
    hide Reduced;
    var idxout: nat := 0;
    ghost var scans := a[..numScans];
    NoneReduced(limSe);
    for idxin := 0 to numScans
      invariant idxout <= idxin && a[..idxout] == Reduced(scans[..idxin], limSe)
      invariant forall i :: idxin <= i < a.Length ==> a[i] == old(a[i])
    {
      ReducedMore(scans, idxin, limSe);
      ghost var before := a[..idxout];
      if idxin != idxout {
        a[idxout] := a[idxin];
      }
      assert a[idxout] == scans[idxin] && a[..idxout] == before;
      if a[idxout].ss > limSe {
        continue;
      }
      if a[idxout].se > limSe {
        a[idxout] := a[idxout].(se := limSe);
      }
      idxout := idxout + 1;
      assert a[..idxout] == before + ReducedScan(scans[idxin], limSe);
    }
    count := idxout;
    assert scans[..numScans] == scans;
  }

  lemma NoneReduced(limSe: int)
    ensures Reduced([], limSe) == []
  {
  }

  lemma {:induction false} TouchesSnoc(a: seq<ScanInfo>, b: seq<ScanInfo>, ci: int, k: int)
    requires GoodScript(a) && GoodScript(b)
    ensures GoodScript(a + b) && Touches(a + b, ci, k) == Touches(a, ci, k) + Touches(b, ci, k)
    decreases |a|
  {
    hide InScan;
    if a == [] {
      assert a + b == b;
    } else {
      assert (a + b)[1..] == a[1..] + b;
      TouchesSnoc(a[1..], b, ci, k);
    }
  }

  // Nothing changes for the coefficients that are left; the others are not sent at all.
  lemma {:induction false} ReducedTouches(scans: seq<ScanInfo>, limSe: int, ci: int, k: int)
    requires GoodScript(scans)
    ensures GoodScript(Reduced(scans, limSe))
    ensures Touches(Reduced(scans, limSe), ci, k) == if k <= limSe then Touches(scans, ci, k) else []
    decreases |scans|
  {
    hide InScan, Touches;
    if scans == [] {
      NoTouches(ci, k);
    } else {
      var n := |scans| - 1;
      var s := scans[n];
      var one := ReducedScan(s, limSe);
      ReducedTouches(scans[..n], limSe, ci, k);
      TouchesSnoc(Reduced(scans[..n], limSe), one, ci, k);
      TouchesSnoc(scans[..n], [s], ci, k);
      assert scans[..n] + [s] == scans;
      OneReduced(s, limSe, ci, k);
    }
  }

  lemma NoTouches(ci: int, k: int)
    ensures Touches([], ci, k) == []
  {
  }

  lemma OneReduced(s: ScanInfo, limSe: int, ci: int, k: int)
    requires GoodInfo(s)
    ensures GoodScript(ReducedScan(s, limSe))
        && Touches(ReducedScan(s, limSe), ci, k) == if k <= limSe then Touches([s], ci, k) else []
  {
    hide InScan;
    var one := ReducedScan(s, limSe);
    NoTouches(ci, k);
    assert [s][1..] == [] && (one != [] ==> one[1..] == []);
    if one != [] { SameComponents(one[0], s, ci); }
  }

  lemma SameComponents(a: ScanInfo, b: ScanInfo, ci: int)
    requires GoodInfo(a) && GoodInfo(b) && a.compsInScan == b.compsInScan && a.index == b.index
    ensures InScan(a, ci) == InScan(b, ci)
  {
  }

  // ---- Putting scripts together ------------------------------------------------------------------------------------

  lemma {:induction false} FollowsConcat(n: nat, pos: Positions, a: seq<ScanInfo>, b: seq<ScanInfo>)
    requires GoodPos(n, pos) && GoodScript(a) && GoodScript(b) && ScriptFollows(n, pos, a)
        && ScriptFollows(n, AfterScript(n, pos, a), b)
    ensures GoodScript(a + b) && ScriptFollows(n, pos, a + b)
    ensures AfterScript(n, pos, a + b) == AfterScript(n, AfterScript(n, pos, a), b)
    decreases |a|
  {
    hide ScanFollows;
    if a == [] {
      assert a + b == b;
    } else {
      assert (a + b)[1..] == a[1..] + b;
      FollowsParameters(n, pos, a[0]);
      FollowsConcat(n, AfterScan(n, pos, a[0]), a[1..], b);
    }
  }

  // All components alike.
  function Alike(n: nat, p: seq<int>): (pos: Positions)
    requires |p| == DCTSIZE2
    ensures GoodPos(n, pos) && forall ci :: 0 <= ci < n ==> pos[ci] == p
  {
    seq(n, _ => p)
  }

  function OneComp(ci: int, ss: int, se: int, ah: int, al: int): ScanInfo {
    ScanInfo(1, [ci, 0, 0, 0], ss, se, ah, al)
  }

  function PerComp(from: nat, n: nat, ss: int, se: int, ah: int, al: int): (scans: seq<ScanInfo>)
    requires from <= n
    ensures GoodScript(scans) && |scans| == n - from
        && forall i :: 0 <= i < n - from ==> scans[i] == OneComp(from + i, ss, se, ah, al)
  {
    var s := seq(n - from, i requires 0 <= i < n - from => OneComp(from + i, ss, se, ah, al));
    assert forall i :: 0 <= i < |s| ==> s[i] == OneComp(from + i, ss, se, ah, al);
    s
  }

  lemma OneCompFollows(n: nat, pos: Positions, ci: nat, ss: int, se: int, ah: int, al: int)
    requires GoodPos(n, pos) && ci < n && ParametersOk(OneComp(ci, ss, se, ah, al))
        && Extends(pos[ci], OneComp(ci, ss, se, ah, al))
    ensures var s := OneComp(ci, ss, se, ah, al);
            ScanFollows(n, pos, s) && AfterScan(n, pos, s) == pos[ci := Mark(pos[ci], ss, se, al)]
  {
    var s := OneComp(ci, ss, se, ah, al);
    assert s.index[0] == ci;
    forall c | 0 <= c < n ensures InScan(s, c) <==> c == ci { }
  }

  // One scan for each component.
  lemma {:induction false} PerCompFollows(n: nat, p: seq<int>, from: nat, pos: Positions, ss: int, se: int, ah: int,
      al: int)
    requires from <= n && GoodPos(n, pos) && |p| == DCTSIZE2
    requires ParametersOk(OneComp(0, ss, se, ah, al)) && Extends(p, OneComp(0, ss, se, ah, al))
    requires forall ci :: from <= ci < n ==> pos[ci] == p
    requires forall ci :: 0 <= ci < from ==> pos[ci] == Mark(p, ss, se, al)
    ensures ScriptFollows(n, pos, PerComp(from, n, ss, se, ah, al))
    ensures AfterScript(n, pos, PerComp(from, n, ss, se, ah, al)) == Alike(n, Mark(p, ss, se, al))
    decreases n - from
  {
    hide ScanFollows, Mark, AfterScan, InScan;
    var scans := PerComp(from, n, ss, se, ah, al);
    if from == n {
      assert pos == Alike(n, Mark(p, ss, se, al));
    } else {
      SameExtends(p, from, ss, se, ah, al);
      OneCompFollows(n, pos, from, ss, se, ah, al);
      assert scans[1..] == PerComp(from + 1, n, ss, se, ah, al);
      PerCompFollows(n, p, from + 1, pos[from := Mark(p, ss, se, al)], ss, se, ah, al);
    }
  }

  lemma SameExtends(p: seq<int>, ci: nat, ss: int, se: int, ah: int, al: int)
    requires |p| == DCTSIZE2 && ParametersOk(OneComp(0, ss, se, ah, al)) && Extends(p, OneComp(0, ss, se, ah, al))
    ensures ParametersOk(OneComp(ci, ss, se, ah, al)) && Extends(p, OneComp(ci, ss, se, ah, al))
  {
  }

  // A single interleaved DC scan if possible, else one for each component.
  function DcScans(n: nat, ah: int, al: int): (scans: seq<ScanInfo>)
    ensures GoodScript(scans) && |scans| == if n <= MAX_COMPS_IN_SCAN then 1 else n
  {
    if n <= MAX_COMPS_IN_SCAN then [ScanInfo(n, seq(MAX_COMPS_IN_SCAN, i => if i < n then i else 0), 0, 0, ah, al)]
    else PerComp(0, n, 0, 0, ah, al)
  }

  lemma DcScansFollow(n: nat, p: seq<int>, ah: int, al: int)
    requires 0 < n && |p| == DCTSIZE2 && ParametersOk(OneComp(0, 0, 0, ah, al)) && Extends(p, OneComp(0, 0, 0, ah, al))
    ensures ScriptFollows(n, Alike(n, p), DcScans(n, ah, al))
    ensures AfterScript(n, Alike(n, p), DcScans(n, ah, al)) == Alike(n, Mark(p, 0, 0, al))
  {
    if n <= MAX_COMPS_IN_SCAN {
      var s := DcScans(n, ah, al)[0];
      forall c | 0 <= c < n ensures InScan(s, c) { assert s.index[c] == c; }
      assert ScanFollows(n, Alike(n, p), s);
      assert AfterScan(n, Alike(n, p), s) == Alike(n, Mark(p, 0, 0, al));
      assert DcScans(n, ah, al)[1..] == [];
    } else {
      hide ScriptFollows, AfterScript;
      PerCompFollows(n, p, 0, Alike(n, p), 0, 0, ah, al);
    }
  }

  // ---- jpeg_simple_progression -------------------------------------------------------------------------------------

  function AllPurpose(n: nat): (scans: seq<ScanInfo>)
    ensures GoodScript(scans) && |scans| == if n > MAX_COMPS_IN_SCAN then 6 * n else 2 + 4 * n
  {
    DcScans(n, 0, 1) + (PerComp(0, n, 1, 5, 0, 2) + (PerComp(0, n, 6, 63, 0, 2) + (PerComp(0, n, 1, 63, 2, 1)
      + (DcScans(n, 1, 0) + PerComp(0, n, 1, 63, 1, 0)))))
  }

  function ForYcc(): (scans: seq<ScanInfo>)
    ensures GoodScript(scans) && |scans| == 10
  {
    DcScans(3, 0, 1) + [OneComp(0, 1, 5, 0, 2), OneComp(2, 1, 63, 0, 1), OneComp(1, 1, 63, 0, 1),
        OneComp(0, 6, 63, 0, 2), OneComp(0, 1, 63, 2, 1)]
      + DcScans(3, 1, 0) + [OneComp(2, 1, 63, 1, 0), OneComp(1, 1, 63, 1, 0), OneComp(0, 1, 63, 1, 0)]
  }

  // Some scans at the end of a script, leading from positions p to positions q.
  ghost predicate Leads(n: nat, p: seq<int>, scans: seq<ScanInfo>, q: seq<int>) {
    && |p| == |q| == DCTSIZE2 && GoodScript(scans) && ScriptFollows(n, Alike(n, p), scans)
    && AfterScript(n, Alike(n, p), scans) == Alike(n, q)
  }

  lemma LeadsOn(n: nat, p: seq<int>, a: seq<ScanInfo>, q: seq<int>, b: seq<ScanInfo>, r: seq<int>)
    requires Leads(n, p, a, q) && Leads(n, q, b, r)
    ensures Leads(n, p, a + b, r)
  {
    hide ScriptFollows, AfterScript;
    FollowsConcat(n, Alike(n, p), a, b);
  }

  lemma PerCompLeads(n: nat, p: seq<int>, ss: int, se: int, ah: int, al: int)
    requires |p| == DCTSIZE2 && ParametersOk(OneComp(0, ss, se, ah, al)) && Extends(p, OneComp(0, ss, se, ah, al))
    ensures Leads(n, p, PerComp(0, n, ss, se, ah, al), Mark(p, ss, se, al))
  {
    hide ScriptFollows, AfterScript;
    PerCompFollows(n, p, 0, Alike(n, p), ss, se, ah, al);
  }

  lemma DcLeads(n: nat, p: seq<int>, ah: int, al: int)
    requires 0 < n && |p| == DCTSIZE2 && ParametersOk(OneComp(0, 0, 0, ah, al)) && Extends(p, OneComp(0, 0, 0, ah, al))
    ensures Leads(n, p, DcScans(n, ah, al), Mark(p, 0, 0, al))
  {
    hide ScriptFollows, AfterScript;
    DcScansFollow(n, p, ah, al);
  }

  function AllZeros(): (p: seq<int>)
    ensures |p| == DCTSIZE2 && forall k :: 0 <= k < DCTSIZE2 ==> p[k] == 0
  {
    seq(DCTSIZE2, _ => 0)
  }

  // The script for any number of components is accepted and sends every coefficient
  // down to bit 0.
  lemma AllPurposeIsComplete(n: nat)
    requires n > 0
    ensures AllPurpose(n) != [] && IsProgressive(AllPurpose(n)) && AcceptsProgressive(n, AllPurpose(n))
    ensures AfterScript(n, NothingSent(n), AllPurpose(n)) == Alike(n, AllZeros())
  {
    hide ScriptFollows, AfterScript, PerComp, DcScans;
    var p0 := seq(DCTSIZE2, _ => -1);
    var p1 := Mark(p0, 0, 0, 1);
    var p2 := Mark(p1, 1, 5, 2);
    var p3 := Mark(p2, 6, 63, 2);
    var p4 := Mark(p3, 1, 63, 1);
    var p5 := Mark(p4, 0, 0, 0);
    var p6 := Mark(p5, 1, 63, 0);
    assert p6 == AllZeros() && Alike(n, p0) == NothingSent(n);
    PerCompLeads(n, p5, 1, 63, 1, 0);
    DcLeads(n, p4, 1, 0);
    LeadsOn(n, p4, DcScans(n, 1, 0), p5, PerComp(0, n, 1, 63, 1, 0), p6);
    var s5 := DcScans(n, 1, 0) + PerComp(0, n, 1, 63, 1, 0);
    PerCompLeads(n, p3, 1, 63, 2, 1);
    LeadsOn(n, p3, PerComp(0, n, 1, 63, 2, 1), p4, s5, p6);
    PerCompLeads(n, p2, 6, 63, 0, 2);
    LeadsOn(n, p2, PerComp(0, n, 6, 63, 0, 2), p3, PerComp(0, n, 1, 63, 2, 1) + s5, p6);
    PerCompLeads(n, p1, 1, 5, 0, 2);
    LeadsOn(n, p1, PerComp(0, n, 1, 5, 0, 2), p2, PerComp(0, n, 6, 63, 0, 2) + (PerComp(0, n, 1, 63, 2, 1) + s5), p6);
    DcLeads(n, p0, 0, 1);
    LeadsOn(n, p0, DcScans(n, 0, 1), p1,
        PerComp(0, n, 1, 5, 0, 2) + (PerComp(0, n, 6, 63, 0, 2) + (PerComp(0, n, 1, 63, 2, 1) + s5)), p6);
    DcScansFirst(n, 0, 1);
  }

  lemma DcScansFirst(n: nat, ah: int, al: int)
    requires n > 0
    ensures DcScans(n, ah, al)[0].se == 0
  {
  }
}
