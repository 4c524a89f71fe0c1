// The forest of partial code trees that building an optimal Huffman code works on.
module HuffForest {
  import opened Bytes
  import opened Kraft

  // A branch is a list of symbols; root and place say where each symbol stands.
  datatype Forest = Forest(branch: seq<seq<nat>>, root: seq<nat>, place: seq<nat>)

  predicate Placed(f: Forest, n: nat) {
    && |f.branch| == |f.root| == |f.place| == n
    && (forall s :: 0 <= s < n ==> f.root[s] < n)
    && (forall s :: 0 <= s < n ==> f.place[s] < |f.branch[f.root[s]]| && f.branch[f.root[s]][f.place[s]] == s)
    && (forall r, k :: 0 <= r < n && 0 <= k < |f.branch[r]| ==>
          f.branch[r][k] < n && f.root[f.branch[r][k]] == r && f.place[f.branch[r][k]] == k)
  }

  // A branch that is not empty starts with its own root.
  predicate Rooted(f: Forest, n: nat)
    requires Placed(f, n)
  {
    forall r :: 0 <= r < n && f.branch[r] != [] ==> f.branch[r][0] == r
  }

  // The links run through the branches and end each with -1.
  predicate Linked(f: Forest, others: seq<int>)
    requires Placed(f, |others|)
  {
    forall r, k :: 0 <= r < |others| && 0 <= k < |f.branch[r]| ==> LinkAt(f.branch[r], others, k)
  }

  predicate LinkAt(branch: seq<nat>, others: seq<int>, k: nat)
    requires k < |branch| && branch[k] < |others|
  {
    others[branch[k]] == if k + 1 < |branch| then branch[k + 1] else -1
  }

  function Singletons(n: nat): (f: Forest)
    ensures Placed(f, n) && Rooted(f, n)
    ensures forall s :: 0 <= s < n ==> f.root[s] == s && f.branch[s] == [s]
  {
    Forest(seq(n, i requires 0 <= i < n => [i]), seq(n, i requires 0 <= i < n => i), seq(n, i requires 0 <= i < n => 0))
  }

  // Branch b hung onto the end of branch a.
  function Join(f: Forest, n: nat, a: nat, b: nat): (g: Forest)
    requires Placed(f, n) && a < n && b < n && a != b
    ensures Placed(g, n)
    ensures forall s :: 0 <= s < n ==> g.root[s] == if f.root[s] == b then a else f.root[s]
    ensures g.branch[a] == f.branch[a] + f.branch[b] && g.branch[b] == []
    ensures forall r :: 0 <= r < n && r != a && r != b ==> g.branch[r] == f.branch[r]
  {
    Forest(
      f.branch[a := f.branch[a] + f.branch[b]][b := []],
      seq(n, s requires 0 <= s < n => if f.root[s] == b then a else f.root[s]),
      seq(n, s requires 0 <= s < n => if f.root[s] == b then f.place[s] + |f.branch[a]| else f.place[s]))
  }

  lemma JoinKeepsRoots(f: Forest, n: nat, a: nat, b: nat)
    requires Placed(f, n) && Rooted(f, n) && a < n && b < n && a != b && f.branch[a] != []
    ensures Rooted(Join(f, n, a, b), n)
  {
  }

  lemma JoinKeepsLinks(f: Forest, others: seq<int>, a: nat, b: nat)
    requires Placed(f, |others|) && Rooted(f, |others|) && Linked(f, others)
    requires a < |others| && b < |others| && a != b && f.branch[a] != [] && f.branch[b] != []
    ensures Linked(Join(f, |others|, a, b), others[f.branch[a][|f.branch[a]| - 1] := b])
  {
    hide Join, Rooted, LinkAt;
    var n, g, m := |others|, Join(f, |others|, a, b), |f.branch[a]|;
    var last := f.branch[a][m - 1];
    var o := others[last := b];
    assert f.root[last] == a;
    forall r, k | 0 <= r < n && 0 <= k < |g.branch[r]| ensures LinkAt(g.branch[r], o, k) {
      if r != a {
        assert g.branch[r] == f.branch[r];
        JoinElsewhere(f, others, r, k, last, b);
      } else if k < m {
        JoinFirst(f, others, a, b, k);
      } else {
        JoinSecond(f, others, a, b, k - m);
      }
    }
  }

  lemma JoinElsewhere(f: Forest, others: seq<int>, r: nat, k: nat, last: nat, b: nat)
    requires Placed(f, |others|) && Linked(f, others)
    requires r < |others| && k < |f.branch[r]| && last < |others| && f.root[last] != r
    ensures LinkAt(f.branch[r], others[last := b], k)
  {
    assert LinkAt(f.branch[r], others, k);
  }

  lemma JoinFirst(f: Forest, others: seq<int>, a: nat, b: nat, k: nat)
    requires Placed(f, |others|) && Rooted(f, |others|) && Linked(f, others)
    requires a < |others| && b < |others| && a != b && f.branch[b] != [] && k < |f.branch[a]|
    ensures LinkAt(f.branch[a] + f.branch[b], others[f.branch[a][|f.branch[a]| - 1] := b], k)
  {
    var last := f.branch[a][|f.branch[a]| - 1];
    assert f.place[last] == |f.branch[a]| - 1 && f.place[f.branch[a][k]] == k;
    assert f.branch[b][0] == b;
    assert LinkAt(f.branch[a], others, k);
  }

  lemma JoinSecond(f: Forest, others: seq<int>, a: nat, b: nat, k: nat)
    requires Placed(f, |others|) && Linked(f, others)
    requires a < |others| && b < |others| && a != b && f.branch[a] != [] && k < |f.branch[b]|
    ensures LinkAt(f.branch[a] + f.branch[b], others[f.branch[a][|f.branch[a]| - 1] := b], |f.branch[a]| + k)
  {
    var last := f.branch[a][|f.branch[a]| - 1];
    assert f.root[last] == a && f.root[f.branch[b][k]] == b;
    assert LinkAt(f.branch[b], others, k);
  }

  // ---- Weights and lengths over the forest ----------------------------------------------

  // What is left of the weights when only the symbols of branch r count.
  function Share(w: seq<nat>, root: seq<nat>, r: nat): (v: seq<nat>)
    requires |root| == |w|
    ensures |v| == |w| && forall s :: 0 <= s < |w| ==> v[s] == if root[s] == r then w[s] else 0
  {
    seq(|w|, s requires 0 <= s < |w| => if root[s] == r then w[s] else 0)
  }

  // freq holds at every root the weight of its branch.
  predicate Weighed(w: seq<nat>, root: seq<nat>, freq: seq<nat>) {
    && |root| == |freq| == |w|
    && forall r :: 0 <= r < |w| ==> freq[r] == Sum(Share(w, root, r))
  }

  // Every branch in use is a whole code tree: its shares of 2^k add up to 2^k.
  predicate Whole(w: seq<nat>, root: seq<nat>, size: seq<nat>, k: nat) {
    && |root| == |size| == |w|
    && Fits(w, size, k)
    && (forall r :: 0 <= r < |w| && Sum(Share(w, root, r)) > 0 ==> Sum(Cells(Share(w, root, r), size, k)) == Pow2(k))
  }

  // Lengths one longer on the two branches a and b.
  function Longer(size: seq<nat>, root: seq<nat>, a: nat, b: nat): (t: seq<nat>)
    requires |root| == |size|
    ensures |t| == |size|
    ensures forall s :: 0 <= s < |size| ==> t[s] == size[s] + if root[s] == a || root[s] == b then 1 else 0
  {
    seq(|size|, s requires 0 <= s < |size| => size[s] + if root[s] == a || root[s] == b then 1 else 0)
  }

  lemma {:induction false} SumMono(s: seq<nat>, t: seq<nat>)
    requires |s| == |t| && forall i :: 0 <= i < |s| ==> s[i] <= t[i]
    ensures Sum(s) <= Sum(t)
  {
    if s != [] { SumMono(s[..|s| - 1], t[..|s| - 1]); }
  }

  lemma {:induction false} SumPositive(s: seq<nat>)
    ensures Sum(s) > 0 <==> exists i :: 0 <= i < |s| && s[i] > 0
  {
    if i :| 0 <= i < |s| && s[i] > 0 {
      SumUpdate(s, i, 0);
    } else {
      SumZero(s);
    }
  }

  lemma JoinWeighed(w: seq<nat>, f: Forest, freq: seq<nat>, a: nat, b: nat)
    requires Placed(f, |w|) && Weighed(w, f.root, freq) && a < |w| && b < |w| && a != b
    ensures Weighed(w, Join(f, |w|, a, b).root, Merged(freq, a, b))
  {
    hide Sum, Placed;
    var root, root' := f.root, Join(f, |w|, a, b).root;
    forall r | 0 <= r < |w| ensures Merged(freq, a, b)[r] == Sum(Share(w, root', r)) {
      if r == a {
        SumAdd(Share(w, root, a), Share(w, root, b), Share(w, root', a));
      } else if r == b {
        SumZero(Share(w, root', b));
      } else {
        assert Share(w, root', r) == Share(w, root, r);
      }
    }
  }

  lemma JoinWhole(w: seq<nat>, f: Forest, size: seq<nat>, k: nat, a: nat, b: nat)
    requires Placed(f, |w|) && Whole(w, f.root, size, k) && a < |w| && b < |w| && a != b
    requires Sum(Share(w, f.root, a)) > 0 && Sum(Share(w, f.root, b)) > 0
    ensures Whole(w, Join(f, |w|, a, b).root, Longer(size, f.root, a, b), k + 1)
  {
    hide Sum, Placed;
    var root, root', size' := f.root, Join(f, |w|, a, b).root, Longer(size, f.root, a, b);
    forall r | 0 <= r < |w| && Sum(Share(w, root', r)) > 0
      ensures Sum(Cells(Share(w, root', r), size', k + 1)) == Pow2(k + 1)
    {
      if r == a {
        SumAdd(Cells(Share(w, root, a), size, k), Cells(Share(w, root, b), size, k),
            Cells(Share(w, root', a), size', k + 1));
      } else if r == b {
        SumZero(Share(w, root', b));
      } else {
        assert Share(w, root', r) == Share(w, root, r);
        SumDouble(Cells(Share(w, root, r), size, k), Cells(Share(w, root', r), size', k + 1));
      }
    }
  }

  lemma JoinCost(w: seq<nat>, root: seq<nat>, size: seq<nat>, a: nat, b: nat)
    requires |root| == |size| == |w| && a != b
    ensures Cost(w, Longer(size, root, a, b)) == Cost(w, size) + Sum(Share(w, root, a)) + Sum(Share(w, root, b))
  {
    var sa, sb, t := Share(w, root, a), Share(w, root, b), Longer(size, root, a, b);
    var u := seq(|w|, s requires 0 <= s < |w| => sa[s] + sb[s]);
    SumAdd(sa, sb, u);
    forall s | 0 <= s < |w| ensures Prods(w, t)[s] == Prods(w, size)[s] + u[s] {
      Distribute(w[s], size[s]);
    }
    SumAdd(Prods(w, size), u, Prods(w, t));
  }

  lemma Distribute(x: nat, y: nat)
    ensures x * (y + 1) == x * y + x
  {
  }

  // ---- Optimality -------------------------------------------------------------------------

  // Every code for w costs what the lengths given so far cost, and at least as
  // much again as some code for the branches that are still apart.
  ghost predicate NothingLost(w: seq<nat>, freq: seq<nat>, size: seq<nat>)
    requires |w| == |size|
  {
    forall l, m :: MeetsKraft(w, l, m) ==> StillPaidFor(freq, Cost(w, l) - Cost(w, size))
  }

  ghost predicate StillPaidFor(freq: seq<nat>, budget: int) {
    exists l, m :: MeetsKraft(freq, l, m) && Cost(freq, l) <= budget
  }

  lemma MergingLosesNothing(w: seq<nat>, freq: seq<nat>, size: seq<nat>, size': seq<nat>, a: nat, b: nat)
    requires |w| == |size| == |size'| && NothingLost(w, freq, size) && Rarest(freq, a, b)
    requires Cost(w, size') == Cost(w, size) + freq[a] + freq[b]
    ensures NothingLost(w, Merged(freq, a, b), size')
  {
    hide Cost, Fits, Sum, Rarest;
    assert a < |freq| && b < |freq| by { RarestAreSymbols(freq, a, b); }
    forall l, m | MeetsKraft(w, l, m) ensures StillPaidFor(Merged(freq, a, b), Cost(w, l) - Cost(w, size')) {
      assert StillPaidFor(freq, Cost(w, l) - Cost(w, size));
      var l1, m1 :| MeetsKraft(freq, l1, m1) && Cost(freq, l1) <= Cost(w, l) - Cost(w, size);
      var l2, m2 := MergeRarest(freq, l1, m1, a, b);
    }
  }

  lemma RarestAreSymbols(freq: seq<nat>, a: nat, b: nat)
    requires Rarest(freq, a, b)
    ensures a < |freq| && b < |freq|
  {
  }

  // ---- The beginning and the end -------------------------------------------------------------

  lemma StartWeighed(w: seq<nat>)
    ensures Weighed(w, Singletons(|w|).root, w)
  {
    var root := Singletons(|w|).root;
    forall r | 0 <= r < |w| ensures w[r] == Sum(Share(w, root, r)) {
      SumUpdate(Share(w, root, r), r, 0);
      SumZero(Share(w, root, r)[r := 0]);
    }
  }

  lemma StartWhole(w: seq<nat>, size: seq<nat>)
    requires |size| == |w| && forall s :: 0 <= s < |w| ==> size[s] == 0
    ensures Whole(w, Singletons(|w|).root, size, 0)
  {
    hide Sum;
    var root := Singletons(|w|).root;
    StartWeighed(w);
    forall r | 0 <= r < |w| && Sum(Share(w, root, r)) > 0 ensures Sum(Cells(Share(w, root, r), size, 0)) == Pow2(0) {
      var c := Cells(Share(w, root, r), size, 0);
      assert Pow2(0) == 1 && c[r] == 1;
      SumUpdate(c, r, 0);
      SumZero(c[r := 0]);
    }
  }

  lemma StartNothingLost(w: seq<nat>, size: seq<nat>)
    requires |size| == |w| && forall s :: 0 <= s < |w| ==> size[s] == 0
    ensures NothingLost(w, w, size)
  {
    hide Fits, Sum;
    SumZero(Prods(w, size));
    forall l, m | MeetsKraft(w, l, m) ensures StillPaidFor(w, Cost(w, l) - Cost(w, size)) {
    }
  }

  predicate OneRoot(freq: seq<nat>, r: nat) {
    r < |freq| && freq[r] > 0 && forall i :: 0 <= i < |freq| && i != r ==> freq[i] == 0
  }

  // The lengths use up a code space of 2^k exactly.
  predicate Complete(w: seq<nat>, size: seq<nat>, k: nat) {
    |size| == |w| && Fits(w, size, k) && Sum(Cells(w, size, k)) == Pow2(k)
  }

  ghost predicate Cheapest(w: seq<nat>, size: seq<nat>)
    requires |size| == |w|
  {
    forall l, m :: MeetsKraft(w, l, m) ==> Cost(w, size) <= Cost(w, l)
  }

  lemma OneTreeLeft(w: seq<nat>, f: Forest, freq: seq<nat>, size: seq<nat>, k: nat, r: nat)
    requires Placed(f, |w|) && Weighed(w, f.root, freq) && Whole(w, f.root, size, k) && OneRoot(freq, r)
    ensures Complete(w, size, k)
  {
    hide Sum;
    forall s | 0 <= s < |w| ensures Share(w, f.root, r)[s] == w[s] {
      if f.root[s] != r {
        var sh := Share(w, f.root, f.root[s]);
        SumPositive(sh);
        assert sh[s] == w[s];
      }
    }
    assert Share(w, f.root, r) == w;
  }

  lemma NothingLostMeansCheapest(w: seq<nat>, freq: seq<nat>, size: seq<nat>)
    requires |size| == |w| && NothingLost(w, freq, size)
    ensures Cheapest(w, size)
  {
    hide Cost, Fits, Sum;
    forall l, m | MeetsKraft(w, l, m) ensures Cost(w, size) <= Cost(w, l) {
      assert StillPaidFor(freq, Cost(w, l) - Cost(w, size));
    }
  }
}
