// Code lengths, their cost and their Kraft sum, and the exchange argument that
// makes merging the two rarest symbols optimal.
module Kraft {
  import opened Bytes

  // ---- Finite sums ------------------------------------------------------------------

  function Sum(s: seq<nat>): nat {
    if s == [] then 0 else Sum(s[..|s| - 1]) + s[|s| - 1]
  }

  lemma {:induction false} SumUpdate(s: seq<nat>, i: nat, v: nat)
    requires i < |s|
    ensures Sum(s[i := v]) == Sum(s) - s[i] + v && Sum(s) >= s[i]
  {
    var n := |s| - 1;
    if i == n {
      assert s[i := v][..n] == s[..n];
    } else {
      SumUpdate(s[..n], i, v);
      assert s[i := v][..n] == s[..n][i := v];
    }
  }

  lemma {:induction false} SumTwo(s: seq<nat>, i: nat, j: nat)
    requires i < j < |s|
    ensures Sum(s) >= s[i] + s[j]
  {
    SumUpdate(s, i, 0);
    SumUpdate(s[i := 0], j, 0);
  }

  lemma {:induction false} SumEven(s: seq<nat>)
    requires forall i :: 0 <= i < |s| ==> s[i] % 2 == 0
    ensures Sum(s) % 2 == 0
  {
    if s != [] { SumEven(s[..|s| - 1]); }
  }

  lemma {:induction false} SumDouble(s: seq<nat>, t: seq<nat>)
    requires |s| == |t| && forall i :: 0 <= i < |s| ==> t[i] == 2 * s[i]
    ensures Sum(t) == 2 * Sum(s)
  {
    if s != [] { SumDouble(s[..|s| - 1], t[..|s| - 1]); }
  }

  lemma {:induction false} SumAdd(s: seq<nat>, t: seq<nat>, u: seq<nat>)
    requires |s| == |t| == |u| && forall i :: 0 <= i < |s| ==> u[i] == s[i] + t[i]
    ensures Sum(u) == Sum(s) + Sum(t)
  {
    if s != [] { SumAdd(s[..|s| - 1], t[..|s| - 1], u[..|s| - 1]); }
  }

  lemma {:induction false} SumZero(s: seq<nat>)
    requires forall i :: 0 <= i < |s| ==> s[i] == 0
    ensures Sum(s) == 0
  {
    if s != [] { SumZero(s[..|s| - 1]); }
  }

  // ---- Code lengths -----------------------------------------------------------------

  // Symbol i is in use when its weight w[i] is not zero; l[i] is its code length.
  // Cells are the shares of a code space of size 2^m.
  function Cell(w: nat, l: nat, m: nat): nat {
    if w == 0 || l > m then 0 else Pow2(m - l)
  }

  function Cells(w: seq<nat>, l: seq<nat>, m: nat): (c: seq<nat>)
    requires |l| == |w|
    ensures |c| == |w| && forall i :: 0 <= i < |w| ==> c[i] == Cell(w[i], l[i], m)
  {
    seq(|w|, i requires 0 <= i < |w| => Cell(w[i], l[i], m))
  }

  predicate Fits(w: seq<nat>, l: seq<nat>, m: nat)
    requires |l| == |w|
  {
    forall i :: 0 <= i < |w| && w[i] > 0 ==> l[i] <= m
  }

  // The lengths satisfy Kraft's inequality, so some prefix code has them.
  predicate MeetsKraft(w: seq<nat>, l: seq<nat>, m: nat) {
    |l| == |w| && Fits(w, l, m) && Sum(Cells(w, l, m)) <= Pow2(m)
  }

  function Prods(w: seq<nat>, l: seq<nat>): (p: seq<nat>)
    requires |l| == |w|
    ensures |p| == |w| && forall i :: 0 <= i < |w| ==> p[i] == w[i] * l[i]
  {
    seq(|w|, i requires 0 <= i < |w| => w[i] * l[i])
  }

  // Total weighted code length.
  function Cost(w: seq<nat>, l: seq<nat>): nat
    requires |l| == |w|
  {
    Sum(Prods(w, l))
  }

  lemma CostUpdate(w: seq<nat>, l: seq<nat>, i: nat, v: nat, k: nat)
    requires |l| == |w| && i < |w|
    ensures Cost(w[i := v], l[i := k]) == Cost(w, l) - w[i] * l[i] + v * k
    ensures Cost(w, l) >= w[i] * l[i]
  {
    SumUpdate(Prods(w, l), i, v * k);
    assert Prods(w[i := v], l[i := k]) == Prods(w, l)[i := v * k];
  }

  lemma CellsUpdate(w: seq<nat>, l: seq<nat>, m: nat, i: nat, v: nat, k: nat)
    requires |l| == |w| && i < |w|
    ensures Sum(Cells(w[i := v], l[i := k], m)) == Sum(Cells(w, l, m)) - Cell(w[i], l[i], m) + Cell(v, k, m)
    ensures Sum(Cells(w, l, m)) >= Cell(w[i], l[i], m)
  {
    SumUpdate(Cells(w, l, m), i, Cell(v, k, m));
    assert Cells(w[i := v], l[i := k], m) == Cells(w, l, m)[i := Cell(v, k, m)];
  }

  // A coarser unit will do when no code is as long as m.
  lemma KraftCoarser(w: seq<nat>, l: seq<nat>, m: nat)
    requires MeetsKraft(w, l, m) && m > 0 && Fits(w, l, m - 1)
    ensures MeetsKraft(w, l, m - 1)
  {
    SumDouble(Cells(w, l, m - 1), Cells(w, l, m));
  }

  // ---- The exchange argument -----------------------------------------------------------

  predicate Deepest(w: seq<nat>, l: seq<nat>, m: nat, i: int)
    requires |l| == |w|
  {
    0 <= i < |w| && w[i] > 0 && l[i] == m
  }

  lemma TwoNeedRoom(w: seq<nat>, l: seq<nat>, m: nat, x: nat, y: nat)
    requires MeetsKraft(w, l, m) && x < |w| && y < |w| && x != y && w[x] > 0 && w[y] > 0
    ensures m > 0
  {
    var c := Cells(w, l, m);
    if x < y { SumTwo(c, x, y); } else { SumTwo(c, y, x); }
    assert c[x] >= 1 && c[y] >= 1;
  }

  lemma LengthAtMost(w: seq<nat>, l: seq<nat>, m: nat, x: nat)
    requires MeetsKraft(w, l, m) && x < |w| && w[x] > 0
    ensures l[x] <= m
  {
  }

  // Some code at least as good has two symbols of the greatest length m.
  lemma {:induction false} TwoDeepest(w: seq<nat>, l: seq<nat>, m: nat, x: nat, y: nat)
    returns (l': seq<nat>, m': nat, p: nat, q: nat)
    requires MeetsKraft(w, l, m) && x < |w| && y < |w| && x != y && w[x] > 0 && w[y] > 0
    ensures MeetsKraft(w, l', m') && Cost(w, l') <= Cost(w, l) && m' > 0
    ensures p != q && Deepest(w, l', m', p) && Deepest(w, l', m', q)
    decreases m
  {
    TwoNeedRoom(w, l, m, x, y);
    if p' :| Deepest(w, l, m, p') {
      if q' :| Deepest(w, l, m, q') && q' != p' {
        return l, m, p', q';
      }
      ShortenOnlyDeepest(w, l, m, p');
      l', m', p, q := TwoDeepest(w, l[p' := m - 1], m - 1, x, y);
    } else {
      forall i | 0 <= i < |w| && w[i] > 0 ensures l[i] <= m - 1 {
        assert !Deepest(w, l, m, i);
      }
      KraftCoarser(w, l, m);
      l', m', p, q := TwoDeepest(w, l, m - 1, x, y);
    }
  }

  // A single longest code leaves a gap next to it, so it can lose its last bit.
  lemma ShortenOnlyDeepest(w: seq<nat>, l: seq<nat>, m: nat, p: nat)
    requires MeetsKraft(w, l, m) && m > 0 && Deepest(w, l, m, p)
    requires forall q :: Deepest(w, l, m, q) ==> q == p
    ensures MeetsKraft(w, l[p := m - 1], m - 1) && Cost(w, l[p := m - 1]) <= Cost(w, l)
  {
    hide Cost, Sum;
    var l1 := l[p := m - 1];
    RestIsEven(w, l, m, p);
    CellsUpdate(w, l, m, p, w[p], m - 1);
    CostUpdate(w, l, p, w[p], m - 1);
    assert w[p := w[p]] == w;
    assert Pow2(m) == 2 * Pow2(m - 1) && Pow2(1) == 2 && Pow2(0) == 1;
    assert Cell(w[p], m, m) == 1 && Cell(w[p], m - 1, m) == 2;
    forall i | 0 <= i < |w| && w[i] > 0 ensures l1[i] <= m - 1 {
      assert i != p ==> !Deepest(w, l, m, i);
    }
    KraftCoarser(w, l1, m);
    OneLess(w[p], 0, m);
  }

  // Every code but the longest takes an even share, so the total is odd.
  lemma RestIsEven(w: seq<nat>, l: seq<nat>, m: nat, p: nat)
    requires MeetsKraft(w, l, m) && m > 0 && Deepest(w, l, m, p)
    requires forall q :: Deepest(w, l, m, q) ==> q == p
    ensures Sum(Cells(w, l, m)) % 2 == 1
  {
    hide Sum;
    var c := Cells(w, l, m);
    var d := c[p := 0];
    SumUpdate(c, p, 0);
    forall i | 0 <= i < |d| ensures d[i] % 2 == 0 {
      if i != p && w[i] > 0 {
        assert !Deepest(w, l, m, i);
        assert Pow2(m - l[i]) == 2 * Pow2(m - l[i] - 1);
      }
    }
    SumEven(d);
    assert Pow2(0) == 1;
  }

  // Giving the longer of two codes to the rarer symbol costs nothing.
  lemma SwapLengths(w: seq<nat>, l: seq<nat>, m: nat, x: nat, a: nat)
    requires MeetsKraft(w, l, m) && x < |w| && a < |w| && x != a && 0 < w[x] <= w[a] && l[x] <= l[a]
    ensures var l' := l[x := l[a]][a := l[x]]; MeetsKraft(w, l', m) && Cost(w, l') <= Cost(w, l)
  {
    hide Cost, Pow2, Sum;
    var l1 := l[x := l[a]];
    assert w[x := w[x]] == w && w[a := w[a]] == w;
    CellsUpdate(w, l, m, x, w[x], l[a]);
    CellsUpdate(w, l1, m, a, w[a], l[x]);
    CostUpdate(w, l, x, w[x], l[a]);
    CostUpdate(w, l1, a, w[a], l[x]);
    Rearrange(w[x], w[a], l[x], l[a]);
  }

  lemma Rearrange(u: nat, v: nat, k: nat, n: nat)
    requires u <= v && k <= n
    ensures u * n + v * k <= u * k + v * n
  {
    assert (v - u) * (n - k) >= 0;
  }

  predicate Rarest(w: seq<nat>, x: nat, y: nat) {
    && x < |w| && y < |w| && x != y && 0 < w[x] <= w[y]
    && (forall i :: 0 <= i < |w| && w[i] > 0 && i != x ==> w[y] <= w[i])
  }

  // The weights after the two symbols have been merged into one.
  function Merged(w: seq<nat>, x: nat, y: nat): seq<nat>
    requires x < |w| && y < |w|
  {
    w[x := w[x] + w[y]][y := 0]
  }

  // Whatever code there is for w, merging its two rarest symbols leaves a code
  // that is cheaper by their weight: so nothing is lost by merging them first.
  lemma MergeRarest(w: seq<nat>, l: seq<nat>, m: nat, x: nat, y: nat) returns (l': seq<nat>, m': nat)
    requires MeetsKraft(w, l, m) && Rarest(w, x, y)
    ensures MeetsKraft(Merged(w, x, y), l', m')
    ensures Cost(Merged(w, x, y), l') + w[x] + w[y] <= Cost(w, l)
  {
    hide MeetsKraft, Cost;
    var l1, m1, p, q := TwoDeepest(w, l, m, x, y);
    m' := m1;
    // give x the greatest length
    if l1[x] != m' {
      var a := if p != y then p else q;
      var b := if p != y then q else p;
      LengthAtMost(w, l1, m', x);
      SwapLengths(w, l1, m', x, a);
      l1 := l1[x := l1[a]][a := l1[x]];
      p, q := x, b;
    } else if p != x {
      if q == x { q := p; }
      p := x;
    }
    assert p == x && q != x && Deepest(w, l1, m', x) && Deepest(w, l1, m', q);
    // and y
    if l1[y] != m' {
      LengthAtMost(w, l1, m', y);
      SwapLengths(w, l1, m', y, q);
      l1 := l1[y := l1[q]][q := l1[y]];
    }
    l' := l1[x := m' - 1];
    MergeDeepest(w, l1, m', x, y);
  }

  lemma MergeDeepest(w: seq<nat>, l: seq<nat>, m: nat, x: nat, y: nat)
    requires MeetsKraft(w, l, m) && m > 0 && x != y && Deepest(w, l, m, x) && Deepest(w, l, m, y)
    ensures MeetsKraft(Merged(w, x, y), l[x := m - 1], m)
    ensures Cost(Merged(w, x, y), l[x := m - 1]) + w[x] + w[y] == Cost(w, l)
  {
    hide Cost, Sum;
    var v, l' := w[x] + w[y], l[x := m - 1];
    assert l'[y := l'[y]] == l';
    CellsUpdate(w, l, m, x, v, m - 1);
    CellsUpdate(w[x := v], l', m, y, 0, l'[y]);
    assert Pow2(1) == 2 && Pow2(0) == 1;
    CostUpdate(w, l, x, v, m - 1);
    CostUpdate(w[x := v], l', y, 0, l'[y]);
    OneLess(w[x], w[y], m);
  }

  lemma OneLess(u: nat, v: nat, m: nat)
    requires m > 0
    ensures (u + v) * (m - 1) + u + v == u * m + v * m
  {
  }

  // ---- Prefix codes ------------------------------------------------------------------

  // No code in use is the beginning of another.
  predicate PrefixFree(w: seq<nat>, codes: seq<seq<bool>>) {
    && |codes| == |w|
    && forall i, j :: 0 <= i < |w| && 0 <= j < |w| && i != j && w[i] > 0 && w[j] > 0 ==> !(codes[i] <= codes[j])
  }

  function Lengths(codes: seq<seq<bool>>): (l: seq<nat>)
    ensures |l| == |codes| && forall i :: 0 <= i < |l| ==> l[i] == |codes[i]|
  {
    seq(|codes|, i requires 0 <= i < |codes| => |codes[i]|)
  }

  // The symbols whose code starts with bit b, and what follows that bit.
  function Starting(w: seq<nat>, codes: seq<seq<bool>>, b: bool): (v: seq<nat>)
    requires |codes| == |w|
    ensures |v| == |w|
    ensures forall i :: 0 <= i < |w| ==> v[i] == if codes[i] != [] && codes[i][0] == b then w[i] else 0
  {
    seq(|w|, i requires 0 <= i < |w| => if codes[i] != [] && codes[i][0] == b then w[i] else 0)
  }

  function Tails(codes: seq<seq<bool>>): (t: seq<seq<bool>>)
    ensures |t| == |codes| && forall i :: 0 <= i < |t| ==> t[i] == if codes[i] == [] then [] else codes[i][1..]
  {
    seq(|codes|, i requires 0 <= i < |codes| => if codes[i] == [] then [] else codes[i][1..])
  }

  // Every prefix code satisfies Kraft's inequality.
  lemma {:induction false} PrefixCodesAreKraft(w: seq<nat>, codes: seq<seq<bool>>, m: nat)
    requires PrefixFree(w, codes) && Fits(w, Lengths(codes), m)
    ensures MeetsKraft(w, Lengths(codes), m)
    decreases m
  {
    hide Sum;
    var l := Lengths(codes);
    if i :| 0 <= i < |w| && w[i] > 0 && codes[i] == [] {
      OnlyEmptyCode(w, codes, m, i);
    } else if m == 0 {
      SumZero(Cells(w, l, m));
    } else {
      var t := Tails(codes);
      var v0, v1 := Starting(w, codes, false), Starting(w, codes, true);
      StartingIsPrefixFree(w, codes, false);
      StartingIsPrefixFree(w, codes, true);
      PrefixCodesAreKraft(v0, t, m - 1);
      PrefixCodesAreKraft(v1, t, m - 1);
      forall i | 0 <= i < |w|
        ensures Cell(w[i], l[i], m) == Cell(v0[i], Lengths(t)[i], m - 1) + Cell(v1[i], Lengths(t)[i], m - 1)
      {
        assert codes[i] == [] ==> w[i] == 0;
      }
      SumAdd(Cells(v0, Lengths(t), m - 1), Cells(v1, Lengths(t), m - 1), Cells(w, l, m));
    }
  }

  lemma OnlyEmptyCode(w: seq<nat>, codes: seq<seq<bool>>, m: nat, i: nat)
    requires PrefixFree(w, codes) && i < |w| && w[i] > 0 && codes[i] == []
    ensures Sum(Cells(w, Lengths(codes), m)) == Pow2(m)
  {
    var c := Cells(w, Lengths(codes), m);
    SumUpdate(c, i, 0);
    var d := c[i := 0];
    forall j | 0 <= j < |d| ensures d[j] == 0 {
      assert codes[i] <= codes[j];
    }
    SumZero(d);
  }

  lemma PrefixesExtend(b: bool, s: seq<bool>, t: seq<bool>)
    ensures s <= t <==> [b] + s <= [b] + t
  {
    if [b] + s <= [b] + t {
      assert s == ([b] + s)[1..] && t == ([b] + t)[1..];
    }
  }

  lemma StartingIsPrefixFree(w: seq<nat>, codes: seq<seq<bool>>, b: bool)
    requires PrefixFree(w, codes)
    ensures PrefixFree(Starting(w, codes, b), Tails(codes))
  {
    var v, t := Starting(w, codes, b), Tails(codes);
    forall i, j | 0 <= i < |w| && 0 <= j < |w| && i != j && v[i] > 0 && v[j] > 0 ensures !(t[i] <= t[j]) {
      assert codes[i] == [b] + t[i] && codes[j] == [b] + t[j];
      PrefixesExtend(b, t[i], t[j]);
    }
  }
}
