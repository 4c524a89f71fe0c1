// The rules of validate_script told from the scans alone: what a scan may do depends on the
// last scan before it that had the same coefficient.
module ScriptHistory {
  import opened ScanScript

  // Component ci is one of those of the scan.
  predicate HasComp(s: ScanInfo, ci: int)
    requires GoodInfo(s)
  {
    exists a :: 0 <= a < s.compsInScan && a < 4 && s.index[a] == ci
  }

  // The bit position of coefficient k of component ci in the last of the first i scans that
  // had it, or -1.
  function LastAl(scans: seq<ScanInfo>, i: nat, ci: int, k: int): int
    requires i <= |scans| && GoodScript(scans)
  {
    if i == 0 then -1
    else if HasComp(scans[i - 1], ci) && scans[i - 1].ss <= k <= scans[i - 1].se then scans[i - 1].al
    else LastAl(scans, i - 1, ci, k)
  }

  // One to four components in the order of the frame, and parameters in range: DC alone, or AC
  // coefficients of one component.
  predicate WellFormed(n: nat, s: ScanInfo)
    requires GoodInfo(s)
  {
    && 1 <= s.compsInScan <= 4
    && (forall a :: 0 <= a < s.compsInScan ==> 0 <= s.index[a] < n)
    && (forall a :: 0 < a < s.compsInScan ==> s.index[a - 1] < s.index[a])
    && 0 <= s.ss <= s.se <= 63 && 0 <= s.ah <= 10 && 0 <= s.al <= 10
    && (s.ss == 0 ==> s.se == 0) && (s.ss > 0 ==> s.compsInScan == 1)
  }

  // AC coefficients come after the DC coefficient. The first scan of a coefficient has Ah 0, and
  // each later one takes the bit below that of the scan before it.
  predicate Continues(scans: seq<ScanInfo>, i: nat, ci: int)
    requires i < |scans| && GoodScript(scans)
  {
    var s := scans[i];
    && (s.ss > 0 ==> LastAl(scans, i, ci, 0) >= 0)
    && forall k :: s.ss <= k <= s.se ==>
         var last := LastAl(scans, i, ci, k);
         if last < 0 then s.ah == 0 else s.ah == last && s.al == last - 1
  }

  predicate FollowsRules(n: nat, scans: seq<ScanInfo>, i: nat)
    requires i < |scans| && GoodScript(scans)
  {
    WellFormed(n, scans[i]) && forall a :: 0 <= a < scans[i].compsInScan ==> Continues(scans, i, scans[i].index[a])
  }

  lemma RulesAre(n: nat, scans: seq<ScanInfo>, i: nat, pos: Positions)
    requires i < |scans| && GoodScript(scans) && GoodPos(n, pos)
    requires forall ci, k :: 0 <= ci < n && 0 <= k < 64 ==> pos[ci][k] == LastAl(scans, i, ci, k)
    ensures ScanFollows(n, pos, scans[i]) <==> FollowsRules(n, scans, i)
  {
    hide LastAl;
    var s := scans[i];
    if WellFormed(n, s) {
      forall a | 0 <= a < s.compsInScan ensures Extends(pos[s.index[a]], s) <==> Continues(scans, i, s.index[a]) {}
    }
  }

  lemma OneScanMore(n: nat, scans: seq<ScanInfo>, i: nat, pos: Positions)
    requires i < |scans| && GoodScript(scans) && GoodPos(n, pos) && ScanFollows(n, pos, scans[i])
    requires forall ci, k :: 0 <= ci < n && 0 <= k < 64 ==> pos[ci][k] == LastAl(scans, i, ci, k)
    ensures var p := AfterScan(n, pos, scans[i]);
            forall ci, k :: 0 <= ci < n && 0 <= k < 64 ==> p[ci][k] == LastAl(scans, i + 1, ci, k)
  {
    var s := scans[i];
    forall ci ensures HasComp(s, ci) <==> InScan(s, ci) {}
  }

  lemma {:induction false} PrefixFollows(n: nat, scans: seq<ScanInfo>, i: nat)
    requires i <= |scans| && GoodScript(scans)
    ensures GoodScript(scans[..i])
    ensures ScriptFollows(n, NothingSent(n), scans[..i]) <==> forall j :: 0 <= j < i ==> FollowsRules(n, scans, j)
    ensures ScriptFollows(n, NothingSent(n), scans[..i]) ==>
              var pos := AfterScript(n, NothingSent(n), scans[..i]);
              forall ci, k :: 0 <= ci < n && 0 <= k < 64 ==> pos[ci][k] == LastAl(scans, i, ci, k)
    decreases i
  {
    hide ScanFollows, FollowsRules;
    if i > 0 {
      PrefixFollows(n, scans, i - 1);
      var a, s := scans[..i - 1], scans[i - 1];
      assert scans[..i] == a + [s] && a + [s] + [] == a + [s];
      FollowsSnoc(n, NothingSent(n), a, s, []);
      if ScriptFollows(n, NothingSent(n), a) {
        var pos := AfterScript(n, NothingSent(n), a);
        RulesAre(n, scans, i - 1, pos);
        FollowsParameters(n, pos, s);
        if ScanFollows(n, pos, s) { OneScanMore(n, scans, i - 1, pos); }
      }
    }
  }

  // A progressive script is accepted exactly when every scan follows the rules and each
  // component has a DC scan.
  lemma AcceptsIff(n: nat, scans: seq<ScanInfo>)
    requires GoodScript(scans)
    ensures AcceptsProgressive(n, scans) <==>
              (forall i :: 0 <= i < |scans| ==> FollowsRules(n, scans, i))
              && forall ci :: 0 <= ci < n ==> LastAl(scans, |scans|, ci, 0) >= 0
  {
    hide FollowsRules, LastAl, ScriptFollows, AfterScript;
    PrefixFollows(n, scans, |scans|);
    assert scans[..|scans|] == scans;
    if ScriptFollows(n, NothingSent(n), scans) {
      var pos, k := AfterScript(n, NothingSent(n), scans), 0;
      forall ci | 0 <= ci < n ensures pos[ci][k] == LastAl(scans, |scans|, ci, k) {}
      if AcceptsProgressive(n, scans) {
        forall ci | 0 <= ci < n ensures LastAl(scans, |scans|, ci, 0) >= 0 { assert pos[ci][0] >= 0; }
      } else {
        var ci :| 0 <= ci < n && pos[ci][0] < 0;
        assert LastAl(scans, |scans|, ci, 0) < 0;
      }
    }
  }
}
