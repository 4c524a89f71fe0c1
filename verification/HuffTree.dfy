// Building an optimal Huffman code by merging the two rarest branches, with the
// branches kept as linked lists of symbols.
module HuffTree {
  import opened Kraft
  import opened HuffForest
  import opened HuffMerges

  const PSEUDO := 256
  const SYMBOLS := 257
  const MAX_COUNT := 1_000_000_000

  // ---- Finding the rarest symbol -----------------------------------------------------------

  // The symbol with the least count that is not zero, the larger one in case of ties.
  method FindLeast(freq: array<nat>, skip: int) returns (c: int)
    requires forall i :: 0 <= i < freq.Length ==> freq[i] <= MAX_COUNT
    ensures c < 0 ==> NoneLeft(freq[..], skip)
    ensures c >= 0 ==> Least(freq[..], skip, c)
    ensures c < 0 ==> forall i :: 0 <= i < freq.Length && freq[i] != 0 ==> i == skip
    ensures c >= 0 ==> c < freq.Length && freq[c] != 0 && c != skip
    ensures c >= 0 ==>
              forall i :: 0 <= i < freq.Length && freq[i] != 0 && i != skip ==>
                freq[c] < freq[i] || (freq[c] == freq[i] && i <= c)
  {
    c := -1;
    var v: nat := MAX_COUNT;
    for i := 0 to freq.Length
      invariant c < 0 ==> NoneLeft(freq[..i], skip) && v == MAX_COUNT
      invariant c >= 0 ==> Least(freq[..i], skip, c) && v == freq[c]
    {
      if freq[i] != 0 && freq[i] <= v && i != skip {
        v := freq[i];
        c := i;
      }
      assert freq[..i + 1] == freq[..i] + [freq[i]];
    }
    assert freq[..freq.Length] == freq[..];
    assert forall i :: 0 <= i < freq.Length ==> freq[..][i] == freq[i];
  }

  // ---- Walking a branch ---------------------------------------------------------------------

  // The links run from symbol c through its branch.
  predicate Chain(f: Forest, others: seq<int>, c: nat) {
    && Placed(f, |others|) && c < |others| && f.branch[c] != [] && f.branch[c][0] == c
    && forall k :: 0 <= k < |f.branch[c]| ==> LinkAt(f.branch[c], others, k)
  }

  function Last(f: Forest, c: nat): nat
    requires c < |f.branch| && f.branch[c] != []
  {
    f.branch[c][|f.branch[c]| - 1]
  }

  method LengthenBranch(c: nat, codesize: array<nat>, others: array<int>, ghost f: Forest) returns (last: nat)
    requires codesize.Length == others.Length && Chain(f, others[..], c)
    modifies codesize
    ensures forall s :: 0 <= s < codesize.Length ==>
              codesize[s] == old(codesize[s]) + if f.root[s] == c then 1 else 0
    ensures last == Last(f, c) < others.Length
  {
    ghost var p: nat := 0;
    last := c;
    codesize[last] := codesize[last] + 1;
    while others[last] >= 0
      invariant p < |f.branch[c]| && last == f.branch[c][p] && last < others.Length
      invariant forall s :: 0 <= s < codesize.Length ==>
                  codesize[s] == old(codesize[s]) + if f.root[s] == c && f.place[s] <= p then 1 else 0
      decreases |f.branch[c]| - p
    {
      assert LinkAt(f.branch[c], others[..], p);
      last := others[last];
      p := p + 1;
      codesize[last] := codesize[last] + 1;
    }
    assert LinkAt(f.branch[c], others[..], p);
  }

  // ---- The merge loop -------------------------------------------------------------------------

  // What holds of the counts, lengths and links between two merges.
  ghost predicate Growing(w: seq<nat>, f: Forest, freq: seq<nat>, size: seq<nat>, others: seq<int>, k: nat) {
    && |w| == |freq| == |size| == |others|
    && Placed(f, |w|) && Rooted(f, |w|) && Linked(f, others)
    && Weighed(w, f.root, freq)
    && Whole(w, f.root, size, k)
    && NothingLost(w, freq, size)
    && UnusedApart(w, f, freq, size)
  }

  predicate UnusedApart(w: seq<nat>, f: Forest, freq: seq<nat>, size: seq<nat>) {
    && |w| == |freq| == |size| == |f.root|
    && forall s :: 0 <= s < |w| && w[s] == 0 ==> f.root[s] == s && freq[s] == 0 && size[s] == 0
  }

  lemma Start(w: seq<nat>, size: seq<nat>, others: seq<int>)
    requires |w| == |size| == |others|
    requires forall s :: 0 <= s < |w| ==> size[s] == 0 && others[s] == -1
    ensures Growing(w, Singletons(|w|), w, size, others, 0)
  {
    StartWeighed(w);
    StartWhole(w, size);
    StartNothingLost(w, size);
    hide Weighed, Whole, NothingLost;
  }

  lemma BranchInUse(w: seq<nat>, f: Forest, freq: seq<nat>, size: seq<nat>, others: seq<int>, k: nat, r: nat)
    requires Growing(w, f, freq, size, others, k) && r < |w| && freq[r] > 0
    ensures Chain(f, others, r) && |f.branch| == |f.root| == |w| && f.branch[r] != []
  {
    SumPositive(Share(w, f.root, r));
  }

  lemma OtherChain(f: Forest, others: seq<int>, a: nat, b: nat)
    requires Chain(f, others, a) && Chain(f, others, b) && a != b && Last(f, a) < |others|
    ensures Chain(f, others[Last(f, a) := b], b)
  {
    var o := others[Last(f, a) := b];
    forall k | 0 <= k < |f.branch[b]| ensures LinkAt(f.branch[b], o, k) {
      assert LinkAt(f.branch[b], others, k);
      assert f.root[f.branch[b][k]] == b && f.root[Last(f, a)] == a;
    }
  }

  lemma Merge(w: seq<nat>, f: Forest, freq: seq<nat>, size: seq<nat>, others: seq<int>, k: nat, a: nat, b: nat)
    requires Growing(w, f, freq, size, others, k) && Least(freq, -1, a) && Least(freq, a, b)
    requires Chain(f, others, a) && Chain(f, others, b)
    ensures Growing(w, Join(f, |w|, a, b), Merged(freq, a, b), Longer(size, f.root, a, b),
                    others[Last(f, a) := b], k + 1)
  {
    hide Sum, Cost, Rooted, Linked, Whole, NothingLost;
    JoinKeepsRoots(f, |w|, a, b);
    JoinKeepsLinks(f, others, a, b);
    JoinWeighed(w, f, freq, a, b);
    JoinWhole(w, f, size, k, a, b);
    JoinCost(w, f.root, size, a, b);
    assert Rarest(freq, a, b);
    MergingLosesNothing(w, freq, size, Longer(size, f.root, a, b), a, b);
    UnusedStayApart(w, f, freq, size, a, b);
  }

  lemma SameRoots(w: seq<nat>, f: Forest, freq: seq<nat>, size: seq<nat>, others: seq<int>, k: nat, a: nat, b: nat)
    requires Growing(w, f, freq, size, others, k) && a < |w| && b < |w| && a != b
    ensures Placed(f, |w|) && Join(f, |w|, a, b).root == JoinRoots(f.root, a, b)
  {
    assert Placed(f, |w|);
  }

  lemma UnusedStayApart(w: seq<nat>, f: Forest, freq: seq<nat>, size: seq<nat>, a: nat, b: nat)
    requires Placed(f, |w|) && UnusedApart(w, f, freq, size) && a < |w| && b < |w| && a != b && freq[a] > 0
        && freq[b] > 0
    ensures UnusedApart(w, Join(f, |w|, a, b), Merged(freq, a, b), Longer(size, f.root, a, b))
  {
    hide Join, Longer;
  }

  lemma NoCountTooLarge(w: seq<nat>, root: seq<nat>, freq: seq<nat>)
    requires Weighed(w, root, freq) && Sum(w) <= MAX_COUNT
    ensures forall r :: 0 <= r < |w| ==> freq[r] <= MAX_COUNT
  {
    forall r | 0 <= r < |w| ensures freq[r] <= MAX_COUNT {
      SumMono(Share(w, root, r), w);
    }
  }

  lemma SomeCount(w: seq<nat>, f: Forest, freq: seq<nat>, s: nat)
    requires Placed(f, |w|) && Weighed(w, f.root, freq) && s < |w| && w[s] > 0
    ensures freq[f.root[s]] > 0
  {
    var sh := Share(w, f.root, f.root[s]);
    SumUpdate(sh, s, 0);
  }

  // The lengths are those of an optimal code.
  ghost predicate Optimal(w: seq<nat>, size: seq<nat>) {
    && |size| == |w|
    && (exists k :: Complete(w, size, k))
    && Cheapest(w, size)
    && (forall s :: 0 <= s < |w| && w[s] == 0 ==> size[s] == 0)
  }

  function Longest(codes: seq<seq<bool>>): (m: nat)
    ensures forall i :: 0 <= i < |codes| ==> |codes[i]| <= m
  {
    if codes == [] then 0
    else
      var m, n := Longest(codes[..|codes| - 1]), |codes[|codes| - 1]|;
      if m >= n then m else n
  }

  // No prefix code for the counts is cheaper.
  lemma OptimalAmongPrefixCodes(w: seq<nat>, size: seq<nat>, codes: seq<seq<bool>>)
    requires Optimal(w, size) && PrefixFree(w, codes)
    ensures Cost(w, size) <= Cost(w, Lengths(codes))
  {
    hide Cost, MeetsKraft;
    PrefixCodesAreKraft(w, codes, Longest(codes));
  }

  lemma Finish(w: seq<nat>, f: Forest, freq: seq<nat>, size: seq<nat>, others: seq<int>, k: nat, r: nat)
    requires Growing(w, f, freq, size, others, k) && OneRoot(freq, r)
    ensures Optimal(w, size)
  {
    hide Placed, Rooted, Linked, Weighed, Whole, NothingLost, Complete, Cheapest;
    OneTreeLeft(w, f, freq, size, k, r);
    NothingLostMeansCheapest(w, freq, size);
  }

  lemma CountsInRange(w: seq<nat>, f: Forest, freq: seq<nat>, size: seq<nat>, others: seq<int>, k: nat)
    requires Growing(w, f, freq, size, others, k) && Sum(w) <= MAX_COUNT
    ensures forall r :: 0 <= r < |w| ==> freq[r] <= MAX_COUNT
  {
    NoCountTooLarge(w, f.root, freq);
  }

  lemma LastRoot(w: seq<nat>, f: Forest, freq: seq<nat>, size: seq<nat>, others: seq<int>, k: nat, c: int, s: nat)
    requires Growing(w, f, freq, size, others, k) && s < |w| && w[s] > 0
    requires c >= 0 ==> Least(freq, -1, c)
    requires c < 0 ==> NoneLeft(freq, -1)
    requires NoneLeft(freq, c)
    ensures Optimal(w, size) && SizesFrom(freq, f.root, size) == size
  {
    NoMerge(freq, f.root, size, c);
    SomeCount(w, f, freq, s);
    Finish(w, f, freq, size, others, k, c);
  }

  // The merges so far are the first of those that CodeSizes makes.
  ghost predicate InRun(w: seq<nat>, f: Forest, freq: seq<nat>, size: seq<nat>, others: seq<int>, k: nat) {
    Growing(w, f, freq, size, others, k) && |f.root| == |freq| == |size|
        && SizesFrom(freq, f.root, size) == CodeSizes(w)
  }

  lemma RunStarts(w: seq<nat>, size: seq<nat>, others: seq<int>)
    requires |w| == |size| == |others|
    requires forall s :: 0 <= s < |w| ==> size[s] == 0 && others[s] == -1
    ensures InRun(w, Singletons(|w|), w, size, others, 0)
  {
    hide Growing, SizesFrom;
    Start(w, size, others);
    assert Singletons(|w|).root == Places(|w|) && size == Zeros(|w|);
  }

  lemma RunMerges(w: seq<nat>, f: Forest, freq: seq<nat>, size: seq<nat>, others: seq<int>, k: nat, a: nat, b: nat)
    requires InRun(w, f, freq, size, others, k) && Least(freq, -1, a) && Least(freq, a, b)
    ensures Chain(f, others, a) && Chain(f, others, b) && Placed(f, |w|)
        && |f.root| == |freq| == |size| == |others| == |w|
    ensures |f.branch| == |w| && f.branch[a] != [] && f.branch[b] != []
    ensures Last(f, a) < |others| && Chain(f, others[Last(f, a) := b], b)
    ensures InRun(w, Join(f, |w|, a, b), Merged(freq, a, b), Longer(size, f.root, a, b), others[Last(f, a) := b], k + 1)
    ensures Sum(Live(Merged(freq, a, b))) < Sum(Live(freq))
  {
    hide Sum, SizesFrom, Live, Join, Longer;
    assert |w| == |freq| == |size| == |others| && Placed(f, |w|);
    OneMerge(freq, f.root, size, a, b);
    SameRoots(w, f, freq, size, others, k, a, b);
    hide Growing;
    BranchInUse(w, f, freq, size, others, k, a);
    BranchInUse(w, f, freq, size, others, k, b);
    LastInside(f, others, a);
    OneFewer(freq, a, b);
    OtherChain(f, others, a, b);
    Merge(w, f, freq, size, others, k, a, b);
  }

  lemma LastInside(f: Forest, others: seq<int>, a: nat)
    requires Chain(f, others, a)
    ensures Last(f, a) < |others|
  {
  }

  lemma RunEnds(w: seq<nat>, f: Forest, freq: seq<nat>, size: seq<nat>, others: seq<int>, k: nat, c: int, s: nat)
    requires InRun(w, f, freq, size, others, k) && s < |w| && w[s] > 0
    requires c >= 0 ==> Least(freq, -1, c)
    requires c < 0 ==> NoneLeft(freq, -1)
    requires NoneLeft(freq, c)
    ensures Optimal(w, size) && size == CodeSizes(w)
  {
    hide Optimal, Growing, SizesFrom;
    LastRoot(w, f, freq, size, others, k, c, s);
  }

  lemma {:induction false} MergesAreOptimal(w: seq<nat>, f: Forest, freq: seq<nat>, size: seq<nat>, others: seq<int>,
      k: nat, s: nat)
    requires InRun(w, f, freq, size, others, k) && s < |w| && w[s] > 0
    ensures Optimal(w, CodeSizes(w))
    decreases Sum(Live(freq))
  {
    hide InRun, Sum, SizesFrom, CodeSizes, Live, Join, Longer, Optimal, Chain, Placed;
    var a := LeastIn(freq, -1);
    var b := LeastIn(freq, a);
    if a < 0 || b < 0 {
      RunEnds(w, f, freq, size, others, k, a, s);
    } else {
      RunMerges(w, f, freq, size, others, k, a, b);
      MergesAreOptimal(w, Join(f, |w|, a, b), Merged(freq, a, b), Longer(size, f.root, a, b), others[Last(f, a) := b],
        k + 1, s);
    }
  }

  // The lengths that the merges lead to are optimal for any counts that are not all zero.
  lemma SizesAreOptimal(w: seq<nat>, s: nat)
    requires s < |w| && w[s] > 0
    ensures Optimal(w, CodeSizes(w))
  {
    hide InRun, CodeSizes, Optimal;
    var none: seq<int> := seq(|w|, _ => -1);
    RunStarts(w, Zeros(|w|), none);
    MergesAreOptimal(w, Singletons(|w|), w, Zeros(|w|), none, 0, s);
  }

  lemma RunInRange(w: seq<nat>, f: Forest, freq: seq<nat>, size: seq<nat>, others: seq<int>, k: nat)
    requires InRun(w, f, freq, size, others, k) && Sum(w) <= MAX_COUNT
    ensures forall r :: 0 <= r < |w| ==> r < |freq| && freq[r] <= MAX_COUNT
  {
    CountsInRange(w, f, freq, size, others, k);
  }

  // The first phase of jpeg_gen_optimal_table: code lengths by Huffman's algorithm.
  // The pseudo-symbol is given the count 1 first.
  method CodeLengths(freq: array<nat>) returns (codesize: array<nat>)
    requires freq.Length == SYMBOLS && Sum(freq[..][PSEUDO := 1]) <= MAX_COUNT
    modifies freq
    ensures fresh(codesize) && codesize.Length == SYMBOLS
    ensures Optimal(old(freq[..])[PSEUDO := 1], codesize[..]) && codesize[..] == CodeSizes(old(freq[..])[PSEUDO := 1])
  {
    hide InRun, Sum, Optimal, CodeSizes, Join, Chain, Placed, SizesFrom, Live;
    codesize := new nat[SYMBOLS](_ => 0);
    var others := new int[SYMBOLS](_ => -1);
    freq[PSEUDO] := 1;
    ghost var w := freq[..];
    assert w == old(freq[..])[PSEUDO := 1];
    ghost var f, k: nat := Singletons(SYMBOLS), 0;
    RunStarts(w, codesize[..], others[..]);
    while true
      invariant InRun(w, f, freq[..], codesize[..], others[..], k)
      decreases Sum(Live(freq[..]))
    {
      RunInRange(w, f, freq[..], codesize[..], others[..], k);
      var c1 := FindLeast(freq, -1);
      var c2 := FindLeast(freq, c1);
      if c2 < 0 {
        RunEnds(w, f, freq[..], codesize[..], others[..], k, c1, PSEUDO);
        break;
      }
      ghost var freq0, size0, others0 := freq[..], codesize[..], others[..];
      RunMerges(w, f, freq0, size0, others0, k, c1, c2);
      freq[c1] := freq[c1] + freq[c2];
      freq[c2] := 0;
      assert freq[..] == Merged(freq0, c1, c2);
      var last := LengthenBranch(c1, codesize, others, f);
      others[last] := c2;
      assert others[..] == others0[Last(f, c1) := c2];
      last := LengthenBranch(c2, codesize, others, f);
      assert codesize[..] == Longer(size0, f.root, c1, c2);
      f, k := Join(f, SYMBOLS, c1, c2), k + 1;
    }
  }
}
