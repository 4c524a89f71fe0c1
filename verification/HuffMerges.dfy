// The merges by which jpeg_gen_optimal_table finds code lengths, as a function of the
// counts, and how long the codes can get.
module HuffMerges {
  import opened Kraft
  import opened HuffForest

  // ---- Finding the rarest symbol -----------------------------------------------------------

  predicate Least(freq: seq<nat>, skip: int, c: int) {
    && 0 <= c < |freq| && c != skip && freq[c] > 0
    && (forall i :: 0 <= i < |freq| && i != skip && freq[i] > 0 ==> freq[c] < freq[i] || (freq[c] == freq[i] && i <= c))
  }

  predicate NoneLeft(freq: seq<nat>, skip: int) {
    forall i :: 0 <= i < |freq| && i != skip ==> freq[i] == 0
  }

  function LeastIn(freq: seq<nat>, skip: int): (c: int)
    ensures -1 <= c < |freq|
    ensures c < 0 ==> NoneLeft(freq, skip)
    ensures c >= 0 ==> Least(freq, skip, c)
  {
    if freq == [] then -1
    else
      var n := |freq| - 1;
      var c := LeastIn(freq[..n], skip);
      if freq[n] != 0 && n != skip && (c < 0 || freq[n] <= freq[c]) then n else c
  }

  lemma LeastIsIn(freq: seq<nat>, skip: int, c: int)
    requires Least(freq, skip, c)
    ensures LeastIn(freq, skip) == c
  {
    var d := LeastIn(freq, skip);
    assert d >= 0;
  }

  // How many branches are still in use.
  function Live(freq: seq<nat>): (o: seq<nat>)
    ensures |o| == |freq| && forall i :: 0 <= i < |freq| ==> o[i] == if freq[i] > 0 then 1 else 0
  {
    seq(|freq|, i requires 0 <= i < |freq| => if freq[i] > 0 then 1 else 0)
  }

  lemma OneFewer(freq: seq<nat>, a: nat, b: nat)
    requires a < |freq| && b < |freq| && a != b && freq[a] > 0 && freq[b] > 0
    ensures Sum(Live(Merged(freq, a, b))) < Sum(Live(freq))
  {
    SumUpdate(Live(freq), b, 0);
    assert Live(Merged(freq, a, b)) == Live(freq)[b := 0];
  }

  // ---- All merges ----------------------------------------------------------------------------

  // Branch b becomes part of branch a.
  function JoinRoots(root: seq<nat>, a: nat, b: nat): (r: seq<nat>)
    ensures |r| == |root| && forall s :: 0 <= s < |root| ==> r[s] == if root[s] == b then a else root[s]
  {
    seq(|root|, s requires 0 <= s < |root| => if root[s] == b then a else root[s])
  }

  // The lengths after the two rarest branches have been merged until one is left.
  function SizesFrom(freq: seq<nat>, root: seq<nat>, size: seq<nat>): (t: seq<nat>)
    requires |freq| == |root| == |size|
    ensures |t| == |size|
    decreases Sum(Live(freq))
  {
    var a := LeastIn(freq, -1);
    if a < 0 then size
    else
      var b := LeastIn(freq, a);
      if b < 0 then size
      else
        OneFewer(freq, a, b);
        SizesFrom(Merged(freq, a, b), JoinRoots(root, a, b), Longer(size, root, a, b))
  }

  function Places(n: nat): (p: seq<nat>)
    ensures |p| == n && forall s :: 0 <= s < n ==> p[s] == s
  {
    seq(n, s requires 0 <= s < n => s)
  }

  function Zeros(n: nat): (z: seq<nat>)
    ensures |z| == n && forall s :: 0 <= s < n ==> z[s] == 0
  {
    seq(n, _ => 0)
  }

  // The code lengths for the counts w.
  function CodeSizes(w: seq<nat>): (size: seq<nat>)
    ensures |size| == |w|
  {
    SizesFrom(w, Places(|w|), Zeros(|w|))
  }

  lemma OneMerge(freq: seq<nat>, root: seq<nat>, size: seq<nat>, a: nat, b: nat)
    requires |freq| == |root| == |size| && Least(freq, -1, a) && Least(freq, a, b)
    ensures SizesFrom(freq, root, size)
        == SizesFrom(Merged(freq, a, b), JoinRoots(root, a, b), Longer(size, root, a, b))
  {
    LeastIsIn(freq, -1, a);
    LeastIsIn(freq, a, b);
  }

  lemma NoMerge(freq: seq<nat>, root: seq<nat>, size: seq<nat>, c: int)
    requires |freq| == |root| == |size|
        && (if c < 0 then NoneLeft(freq, -1) else Least(freq, -1, c) && NoneLeft(freq, c))
    ensures SizesFrom(freq, root, size) == size
  {
    if c >= 0 { LeastIsIn(freq, -1, c); }
  }

  // ---- How long a code can get ------------------------------------------------------------------

  function Fib(n: nat): nat { if n < 2 then n else Fib(n - 1) + Fib(n - 2) }

  lemma {:induction false} FibMono(m: nat, n: nat)
    requires m <= n
    ensures Fib(m) <= Fib(n)
    decreases n
  {
    if m < n {
      FibMono(m, n - 1);
      assert n >= 2 ==> Fib(n) == Fib(n - 1) + Fib(n - 2);
    }
  }

  const FIB35 := 9_227_465

  lemma Fib35()
    ensures Fib(35) == FIB35
  {
    assert Fib(10) == 55 && Fib(11) == 89;
    assert Fib(12) == 144 && Fib(13) == 233;
    assert Fib(14) == 377 && Fib(15) == 610;
    assert Fib(16) == 987 && Fib(17) == 1597;
    assert Fib(18) == 2584 && Fib(19) == 4181;
    assert Fib(20) == 6765 && Fib(21) == 10946;
    assert Fib(22) == 17711 && Fib(23) == 28657;
    assert Fib(24) == 46368 && Fib(25) == 75025;
    assert Fib(26) == 121393 && Fib(27) == 196418;
    assert Fib(28) == 317811 && Fib(29) == 514229;
    assert Fib(30) == 832040 && Fib(31) == 1346269;
    assert Fib(32) == 2178309 && Fib(33) == 3524578;
    assert Fib(34) == 5702887;
  }

  // No length exceeds the height of its branch.
  predicate Within(freq: seq<nat>, root: seq<nat>, size: seq<nat>, height: seq<nat>) {
    && |freq| == |root| == |size| == |height|
    && forall s ::
        0 <= s < |root| ==> root[s] < |freq| && size[s] <= height[root[s]] && (freq[root[s]] == 0 ==> size[s] == 0)
  }

  // A branch of height h weighs at least Fib(h + 2), its heavier part at least Fib(h + 1).
  predicate Heavy(freq: seq<nat>, height: seq<nat>, part: seq<nat>) {
    && |freq| == |height| == |part|
    && forall r ::
        0 <= r < |freq| && freq[r] > 0 ==>
        Fib(height[r] + 2) <= freq[r] && (height[r] > 0 ==> Fib(height[r] + 1) <= part[r])
  }

  // No other branch is lighter than that part, or it would have been merged before.
  predicate Rivals(freq: seq<nat>, part: seq<nat>) {
    && |freq| == |part|
    && forall r, q :: 0 <= r < |freq| && 0 <= q < |freq| && r != q && freq[r] > 0 && freq[q] > 0 ==> part[r] <= freq[q]
  }

  predicate Grown(freq: seq<nat>, root: seq<nat>, size: seq<nat>, height: seq<nat>, part: seq<nat>) {
    Within(freq, root, size, height) && Heavy(freq, height, part) && Rivals(freq, part)
  }

  function Taller(height: seq<nat>, a: nat, b: nat): nat
    requires a < |height| && b < |height|
  {
    1 + if height[a] >= height[b] then height[a] else height[b]
  }

  lemma MergedGrown(freq: seq<nat>, root: seq<nat>, size: seq<nat>, height: seq<nat>, part: seq<nat>, a: nat, b: nat)
    requires Grown(freq, root, size, height, part) && Least(freq, -1, a) && Least(freq, a, b)
    ensures Grown(Merged(freq, a, b), JoinRoots(root, a, b), Longer(size, root, a, b),
        height[a := Taller(height, a, b)], part[a := freq[b]])
  {
    MergedWithin(freq, root, size, height, a, b);
    MergedHeavy(freq, height, part, a, b);
    MergedRivals(freq, part, a, b);
    hide Within, Heavy, Rivals;
  }

  lemma MergedWithin(freq: seq<nat>, root: seq<nat>, size: seq<nat>, height: seq<nat>, a: nat, b: nat)
    requires Within(freq, root, size, height) && a < |freq| && b < |freq| && a != b && freq[a] > 0
    ensures Within(Merged(freq, a, b), JoinRoots(root, a, b), Longer(size, root, a, b),
        height[a := Taller(height, a, b)])
  {
  }

  lemma MergedHeavy(freq: seq<nat>, height: seq<nat>, part: seq<nat>, a: nat, b: nat)
    requires Heavy(freq, height, part) && Rivals(freq, part) && Least(freq, -1, a) && Least(freq, a, b)
    ensures Heavy(Merged(freq, a, b), height[a := Taller(height, a, b)], part[a := freq[b]])
  {
    hide Fib;
    var t, o := if height[a] >= height[b] then a else b, if height[a] >= height[b] then b else a;
    assert freq[t] > 0 && freq[o] > 0 && part[t] <= freq[o];
    HeavyEnough(freq[t], freq[o], part[t], height[t]);
  }

  lemma MergedRivals(freq: seq<nat>, part: seq<nat>, a: nat, b: nat)
    requires Rivals(freq, part) && Least(freq, -1, a) && Least(freq, a, b)
    ensures Rivals(Merged(freq, a, b), part[a := freq[b]])
  {
  }

  lemma HeavyEnough(t: nat, o: nat, part: nat, h: nat)
    requires Fib(h + 2) <= t && (h > 0 ==> Fib(h + 1) <= part) && part <= o && o > 0
    ensures Fib(h + 3) <= t + o
  {
    assert Fib(h + 3) == Fib(h + 2) + Fib(h + 1);
    assert Fib(1) == 1;
  }

  lemma MergedSum(freq: seq<nat>, a: nat, b: nat)
    requires a < |freq| && b < |freq| && a != b
    ensures Sum(Merged(freq, a, b)) == Sum(freq)
  {
    hide Sum;
    SumUpdate(freq, a, freq[a] + freq[b]);
    SumUpdate(freq[a := freq[a] + freq[b]], b, 0);
  }

  lemma {:induction false} SizesGrown(freq: seq<nat>, root: seq<nat>, size: seq<nat>, height: seq<nat>, part: seq<nat>)
    requires Grown(freq, root, size, height, part) && |freq| == |root| == |size| && Sum(freq) > 0
    ensures forall s :: 0 <= s < |size| ==> Fib(SizesFrom(freq, root, size)[s] + 2) <= Sum(freq)
    decreases Sum(Live(freq))
  {
    hide Sum, Fib, Grown;
    assert |freq| == |root| == |size| == |height| == |part| by { GrownSizes(freq, root, size, height, part); }
    var a := LeastIn(freq, -1);
    if a < 0 {
      AllZero(freq);
      assert false;
    }
    var b := LeastIn(freq, a);
    if b < 0 {
      forall s | 0 <= s < |size| ensures Fib(size[s] + 2) <= Sum(freq) {
        LastBranch(freq, root, size, height, part, a, s);
      }
    } else {
      OneFewer(freq, a, b);
      MergedSum(freq, a, b);
      MergedGrown(freq, root, size, height, part, a, b);
      SizesGrown(Merged(freq, a, b), JoinRoots(root, a, b), Longer(size, root, a, b), height[a := Taller(height, a, b)],
          part[a := freq[b]]);
    }
  }

  lemma GrownSizes(freq: seq<nat>, root: seq<nat>, size: seq<nat>, height: seq<nat>, part: seq<nat>)
    requires Grown(freq, root, size, height, part)
    ensures |freq| == |root| == |size| == |height| == |part|
  {
  }

  lemma AllZero(freq: seq<nat>)
    requires NoneLeft(freq, -1)
    ensures Sum(freq) == 0
  {
    SumZero(freq);
  }

  lemma LastBranch(freq: seq<nat>, root: seq<nat>, size: seq<nat>, height: seq<nat>, part: seq<nat>, a: nat, s: nat)
    requires Grown(freq, root, size, height, part) && Least(freq, -1, a) && NoneLeft(freq, a) && s < |size|
        && Sum(freq) > 0
    ensures Fib(size[s] + 2) <= Sum(freq)
  {
    hide Fib, Sum;
    SumUpdate(freq, a, 0);
    if root[s] == a {
      FibMono(size[s] + 2, height[a] + 2);
    } else {
      FibTwo();
    }
  }

  lemma FibTwo()
    ensures Fib(2) == 1 && Fib(1) == 1
  {
  }

  // So a code of n bits takes counts that add up to Fib(n + 2) or more.
  lemma LongCodesTakeManyCounts(w: seq<nat>, s: nat)
    requires Sum(w) > 0 && s < |w|
    ensures Fib(CodeSizes(w)[s] + 2) <= Sum(w)
  {
    hide Sum, Fib;
    FibTwo();
    var z := Zeros(|w|);
    assert Grown(w, Places(|w|), z, z, z);
    SizesGrown(w, Places(|w|), z, z, z);
  }

  // ---- The bound is met --------------------------------------------------------------------------------

  // Symbol 256 counted once, and before it 1, 1, 2, 3, 5 and so on, k numbers in all.
  function FibCounts(k: nat): (w: seq<nat>)
    requires k <= 256
    ensures |w| == 257 && w[256] == 1
    ensures forall s :: 0 <= s < 256 ==> w[s] == if s >= 256 - k then Fib(256 - s) else 0
  {
    if k == 0 then Zeros(257)[256 := 1] else FibCounts(k - 1)[256 - k := Fib(k)]
  }

  lemma {:induction false} FibCountsSum(k: nat)
    requires k <= 256
    ensures Sum(FibCounts(k)) == Fib(k + 2)
    decreases k
  {
    hide Sum;
    if k == 0 {
      SumZero(Zeros(257));
      SumUpdate(Zeros(257), 256, 1);
      FibTwo();
    } else {
      FibCountsSum(k - 1);
      SumUpdate(FibCounts(k - 1), 256 - k, Fib(k));
      assert Fib(k + 2) == Fib(k + 1) + Fib(k);
    }
  }

  // The branch that grows: its root after j merges.
  function GrowingRoot(j: nat): int { if j < 2 then 256 else 256 - j }

  // After j merges it has the first j of those numbers.
  predicate AfterMerges(freq: seq<nat>, root: seq<nat>, size: seq<nat>, k: nat, j: nat) {
    && j <= k <= 256 && |freq| == |root| == |size| == 257
    && root[256] == GrowingRoot(j) && size[256] == j
    && forall s :: 0 <= s < 257 ==>
         freq[s] == if s == GrowingRoot(j) then Fib(j + 2) else if 256 - k <= s < 256 - j then Fib(256 - s) else 0
  }

  lemma FibStrict(m: nat, n: nat)
    requires 2 <= m < n
    ensures Fib(m) < Fib(n)
  {
    FibMono(m + 1, n);
    FibMono(1, m - 1);
    FibTwo();
    assert Fib(m + 1) == Fib(m) + Fib(m - 1);
  }

  // The next two to be merged are the next number and the branch, the branch winning the tie.
  lemma NextTwo(freq: seq<nat>, root: seq<nat>, size: seq<nat>, k: nat, j: nat)
    requires AfterMerges(freq, root, size, k, j) && j < k
    ensures var x, g := 255 - j, GrowingRoot(j);
            if j == 0 then Least(freq, -1, g) && Least(freq, g, x) else Least(freq, -1, x) && Least(freq, x, g)
  {
    hide Fib;
    FibTwo();
    forall i | j < i <= k ensures Fib(i) > 0 && (i > j + 1 && j > 0 ==> Fib(i) > Fib(j + 1))
        && (i >= j + 2 ==> Fib(i) >= Fib(j + 2)) {
      FibMono(1, i);
      if i > j + 1 && j > 0 { FibStrict(j + 1, i); }
      if i >= j + 2 { FibMono(j + 2, i); }
    }
    FibMono(1, j + 2);
    FibMono(j + 1, j + 2);
    if j > 0 { FibStrict(j + 1, j + 2); }
    assert forall s :: 0 <= s < 256 - j && freq[s] > 0 && s != GrowingRoot(j) ==> freq[s] == Fib(256 - s);
  }

  lemma {:induction false} AllMerges(freq: seq<nat>, root: seq<nat>, size: seq<nat>, k: nat, j: nat)
    requires AfterMerges(freq, root, size, k, j)
    ensures SizesFrom(freq, root, size)[256] == k
    decreases k - j
  {
    hide Fib, SizesFrom;
    var g := GrowingRoot(j);
    if j == k {
      FibMono(1, j + 2);
      FibTwo();
      NoMerge(freq, root, size, g);
    } else {
      NextTwo(freq, root, size, k, j);
      assert Fib(j + 3) == Fib(j + 2) + Fib(j + 1) by { FibNext(j + 1); }
      var x: nat := 255 - j;
      var a, b := if j == 0 then g else x, if j == 0 then x else g;
      OneMerge(freq, root, size, a, b);
      AllMerges(Merged(freq, a, b), JoinRoots(root, a, b), Longer(size, root, a, b), k, j + 1);
    }
  }

  lemma FibNext(n: nat)
    ensures Fib(n + 2) == Fib(n + 1) + Fib(n)
  {
  }

  // Counts that add up to Fib(k + 2) and take a code of k bits.
  lemma TheBoundIsMet(k: nat)
    requires k <= 256
    ensures Sum(FibCounts(k)) == Fib(k + 2) && CodeSizes(FibCounts(k))[256] == k
  {
    FibCountsSum(k);
    FibTwo();
    AllMerges(FibCounts(k), Places(257), Zeros(257), k, 0);
  }
}
