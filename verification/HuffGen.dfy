// The rest of building an optimal Huffman table: counting the lengths, limiting
// them to 16 bits, and listing the symbols.
module HuffGen {
  import opened Bytes
  import opened Kraft
  import opened HuffSpace
  import opened HuffMerges
  import opened HuffTree

  const MAX_BITS := 16
  const REAL := 256

  // A Huffman table as a DHT segment defines it: how many codes there are of each
  // length, and the symbols in order of their codes.
  datatype HuffTbl = HuffTbl(bits: seq<nat>, huffval: seq<nat>)

  datatype Result<T> = Ok(value: T) | Err

  // ---- Counting ---------------------------------------------------------------------------

  lemma {:induction false} UsedPrefix(size: seq<nat>, i: nat)
    requires i <= |size|
    ensures Used(size[..i]) <= Used(size)
    decreases |size|
  {
    if i == |size| {
      assert size[..i] == size;
    } else {
      UsedPrefix(size[..|size| - 1], i);
      assert size[..|size| - 1][..i] == size[..i];
    }
  }

  predicate TooLong(size: seq<nat>) {
    exists s :: 0 <= s < |size| && size[s] > MAX_CLEN
  }

  // With counts below 9227465 in all no code gets too long.
  lemma FewCountsFit(w: seq<nat>)
    requires 0 < Sum(w) < FIB35
    ensures !TooLong(CodeSizes(w))
  {
    hide Sum, CodeSizes, Fib;
    forall s | 0 <= s < |w| ensures CodeSizes(w)[s] <= MAX_CLEN {
      LongCodesTakeManyCounts(w, s);
      Fib35();
      if CodeSizes(w)[s] > MAX_CLEN { FibMono(35, CodeSizes(w)[s] + 2); }
    }
  }

  // With just that many one can.
  lemma ManyCountsNeedNot()
    ensures var w := FibCounts(33); |w| == SYMBOLS && w[PSEUDO] == 1 && Sum(w) == FIB35 && TooLong(CodeSizes(w))
  {
    hide Sum, CodeSizes, Fib;
    TheBoundIsMet(33);
    Fib35();
    assert CodeSizes(FibCounts(33))[256] == 33;
  }

  // Counts the codes of each length; fails when one is longer than MAX_CLEN.
  method CountLengths(codesize: array<nat>) returns (r: Result<array<nat>>)
    requires Used(codesize[..]) <= 255
    ensures r.Err? <==> TooLong(codesize[..])
    ensures r.Ok? ==> fresh(r.value) && r.value[..] == Tally(codesize[..])
  {
    var bits := new nat[MAX_CLEN + 1](_ => 0);
    for i := 0 to codesize.Length
      invariant forall s :: 0 <= s < i ==> codesize[s] <= MAX_CLEN
      invariant bits[..] == Tally(codesize[..i])
    {
      if codesize[i] != 0 {
        if codesize[i] > MAX_CLEN {
          return Err;
        }
        FitsByte(codesize[..], i);
        assert codesize[..][..i + 1] == codesize[..i + 1] && codesize[..][..i] == codesize[..i];
        assert bits[codesize[i]] < 255;
        bits[codesize[i]] := bits[codesize[i]] + 1;
      }
      assert codesize[..i + 1][..i] == codesize[..i];
    }
    assert codesize[..codesize.Length] == codesize[..];
    r := Ok(bits);
  }

  // A counter of eight bits is enough.
  lemma FitsByte(size: seq<nat>, i: nat)
    requires i < |size| && Used(size) <= 255 && 0 < size[i] && forall s :: 0 <= s <= i ==> size[s] <= MAX_CLEN
    ensures Tally(size[..i])[size[i]] < 255
  {
    hide Tally;
    UsedPrefix(size, i + 1);
    assert size[..i + 1][..i] == size[..i];
    TallyCounts(size[..i]);
    SumUpdate(Tally(size[..i]), size[i], 0);
  }

  // ---- Limiting -----------------------------------------------------------------------------

  // The counts of a full code for at most 255 symbols, none longer than i bits.
  predicate Full(bits: seq<nat>, i: nat, n: nat) {
    && |bits| == MAX_CLEN + 1 && i <= MAX_CLEN && bits[0] == 0
    && NoneAbove(bits, i) && Space(bits, MAX_CLEN) == Pow2(MAX_CLEN) && Sum(bits) == n <= 255
  }

  lemma FullFacts(bits: seq<nat>, i: nat, n: nat)
    requires Full(bits, i, n) && i > MAX_BITS
    ensures bits[i] % 2 == 0 && exists j :: 0 < j <= i - 2 && bits[j] > 0
  {
    hide Space, Sum;
    LongestAreEven(bits, MAX_CLEN, i);
    SomeShorter(bits, MAX_CLEN, i);
  }

  lemma ShiftFull(bits: seq<nat>, i: nat, j: nat, n: nat)
    requires Full(bits, i, n) && 0 < j && j + 2 <= i && bits[i] >= 2 && bits[j] > 0
    ensures Full(Shift(bits, i, j), i, n) && Shift(bits, i, j)[i] == bits[i] - 2
  {
    hide Space, Sum;
    ShiftKeeps(bits, MAX_CLEN, i, j);
  }

  // One adjustment of T.81 section K.2: two codes of the greatest length i go. Their
  // prefix becomes the code of one of the two symbols, and a code of the greatest
  // length j <= i - 2 in use becomes the prefix of two codes, for its own symbol and the other.
  predicate Adjusted(before: seq<nat>, after: seq<nat>, i: nat, j: nat) {
    && |after| == |before| && 16 < i < |before| && j <= i - 2
    && before[i] > 0 && (forall k :: i < k < |before| ==> before[k] == 0)
    && before[j] > 0 && (forall k :: j < k <= i - 2 ==> before[k] == 0)
    && forall k :: 0 <= k < |before| ==>
         after[k] + (if k == i then 2 else 0) + (if k == j then 1 else 0)
           == before[k] + (if k == i - 1 then 1 else 0) + (if k == j + 1 then 2 else 0)
  }

  ghost predicate AdjustedOnce(before: seq<nat>, after: seq<nat>) {
    exists i: nat, j: nat :: Adjusted(before, after, i, j)
  }

  // One adjustment after the other leads from the counts before to the counts after.
  ghost predicate Steps(steps: seq<seq<nat>>, before: seq<nat>, after: seq<nat>) {
    && steps != [] && steps[0] == before && steps[|steps| - 1] == after
    && forall t :: 0 < t < |steps| ==> AdjustedOnce(steps[t - 1], steps[t])
  }

  // The adjustments go on until no code is longer than 16 bits.
  ghost predicate LimitedBy(steps: seq<seq<nat>>, before: seq<nat>, after: seq<nat>) {
    Steps(steps, before, after) && forall k :: 16 < k < |after| ==> after[k] == 0
  }

  // With no code longer than 16 bits nothing is adjusted.
  lemma ShortStay(steps: seq<seq<nat>>, before: seq<nat>, after: seq<nat>)
    requires LimitedBy(steps, before, after) && forall k :: 16 < k < |before| ==> before[k] == 0
    ensures after == before
  {
    StepsNeedLong(steps, before, after);
  }

  lemma StepsNeedLong(steps: seq<seq<nat>>, before: seq<nat>, after: seq<nat>)
    requires Steps(steps, before, after)
    ensures |steps| > 1 ==> exists k :: 16 < k < |before| && before[k] > 0
  {
    if |steps| > 1 {
      assert AdjustedOnce(steps[1 - 1], steps[1]);
    }
  }

  // The counts that come out are determined by those that go in.
  lemma {:induction false} OneOutcome(steps: seq<seq<nat>>, steps': seq<seq<nat>>, before: seq<nat>, after: seq<nat>,
      after': seq<nat>)
    requires LimitedBy(steps, before, after) && LimitedBy(steps', before, after')
    ensures after == after'
    decreases |steps|
  {
    if |steps| == 1 {
      ShortStay(steps', before, after');
    } else if |steps'| == 1 {
      ShortStay(steps, before, after);
    } else {
      assert AdjustedOnce(steps[0], steps[1]) && AdjustedOnce(steps'[0], steps'[1]);
      var i: nat, j: nat :| Adjusted(before, steps[1], i, j);
      var i': nat, j': nat :| Adjusted(before, steps'[1], i', j');
      assert i == i' && j == j';
      assert steps[1] == steps'[1];
      StepsOn(steps, before, after);
      StepsOn(steps', before, after');
      OneOutcome(steps[1..], steps'[1..], steps[1], after, after');
    }
  }

  lemma StepsOn(steps: seq<seq<nat>>, before: seq<nat>, after: seq<nat>)
    requires Steps(steps, before, after) && |steps| > 1
    ensures Steps(steps[1..], steps[1], after)
  {
    hide AdjustedOnce;
    forall t | 0 < t < |steps[1..]| ensures AdjustedOnce(steps[1..][t - 1], steps[1..][t]) {
      assert AdjustedOnce(steps[t + 1 - 1], steps[t + 1]);
    }
  }

  lemma StepsEnd(steps: seq<seq<nat>>, before: seq<nat>, between: seq<nat>, after: seq<nat>)
    requires Steps(steps, before, between) && AdjustedOnce(between, after)
    ensures Steps(steps + [after], before, after)
  {
    hide AdjustedOnce;
  }

  method LimitLengths(bits: array<nat>, ghost n: nat) returns (ghost steps: seq<seq<nat>>)
    requires bits.Length == MAX_CLEN + 1 && Full(bits[..], MAX_CLEN, n)
    modifies bits
    ensures Full(bits[..], MAX_BITS, n)
    ensures LimitedBy(steps, old(bits[..]), bits[..])
  {
    hide Full, Shift, Steps, AdjustedOnce;
    var i := MAX_CLEN;
    steps := [bits[..]];
    NoStep(bits[..]);
    while i > MAX_BITS
      invariant MAX_BITS <= i && bits.Length == MAX_CLEN + 1 && Full(bits[..], i, n)
      invariant Steps(steps, old(bits[..]), bits[..])
    {
      while bits[i] > 0
        invariant bits.Length == MAX_CLEN + 1 && Full(bits[..], i, n)
        invariant Steps(steps, old(bits[..]), bits[..])
        decreases bits[i]
      {
        FullFacts(bits[..], i, n);
        ghost var j0: nat :| 0 < j0 <= i - 2 && bits[j0] > 0;
        var j := i - 2;
        while bits[j] == 0
          invariant j0 <= j <= i - 2
          invariant forall k :: j < k <= i - 2 ==> bits[k] == 0
          decreases j
        {
          j := j - 1;
        }
        ghost var before := bits[..];
        ShiftFull(before, i, j, n);
        bits[i] := bits[i] - 2;
        bits[i - 1] := bits[i - 1] + 1;
        bits[j + 1] := bits[j + 1] + 2;
        bits[j] := bits[j] - 1;
        IsShift(before, bits[..], i, j);
        IsAdjusted(before, bits[..], i, j, n);
        StepsEnd(steps, old(bits[..]), before, bits[..]);
        steps := steps + [bits[..]];
      }
      NowShorter(bits[..], i, n);
      i := i - 1;
    }
    NoLonger(bits[..], n);
  }

  lemma NoStep(bits: seq<nat>)
    ensures Steps([bits], bits, bits)
  {
  }

  lemma NoLonger(bits: seq<nat>, n: nat)
    requires Full(bits, MAX_BITS, n)
    ensures forall k :: 16 < k < |bits| ==> bits[k] == 0
  {
  }

  lemma IsShift(before: seq<nat>, after: seq<nat>, i: nat, j: nat)
    requires j + 2 <= i < |before| == |after| && before[i] >= 2 && before[j] > 0
    requires after[i] == before[i] - 2 && after[j] == before[j] - 1
    requires if j + 1 == i - 1 then after[j + 1] == before[j + 1] + 3
             else after[j + 1] == before[j + 1] + 2 && after[i - 1] == before[i - 1] + 1
    requires forall k :: 0 <= k < |before| && k != i && k != i - 1 && k != j && k != j + 1 ==> after[k] == before[k]
    ensures after == Shift(before, i, j)
  {
  }

  lemma IsAdjusted(before: seq<nat>, after: seq<nat>, i: nat, j: nat, n: nat)
    requires Full(before, i, n) && 16 < i && j + 2 <= i && before[i] >= 2 && before[j] > 0
    requires forall k :: j < k <= i - 2 ==> before[k] == 0
    requires after == Shift(before, i, j)
    ensures AdjustedOnce(before, after)
  {
    assert Adjusted(before, after, i, j);
  }

  lemma NowShorter(bits: seq<nat>, i: nat, n: nat)
    requires Full(bits, i, n) && i > 0 && bits[i] == 0
    ensures Full(bits, i - 1, n)
  {
  }

  // ---- Giving up the pseudo-symbol --------------------------------------------------------------

  // No code of all ones, and none longer than 16 bits, for n symbols.
  predicate Limited(bits: seq<nat>, n: nat) {
    && |bits| == MAX_BITS + 1 && bits[0] == 0
    && LeavesOnesFree(bits) && Sum(bits) == n <= 255
  }

  lemma DropOne(bits: seq<nat>, i: nat, n: nat)
    requires Full(bits, i, n) && i <= MAX_BITS && bits[i] > 0
    ensures n > 0 && Limited(bits[i := bits[i] - 1][..MAX_BITS + 1], n - 1)
  {
    hide Space, Sum;
    var b := bits[i := bits[i] - 1];
    SumUpdate(bits, i, bits[i] - 1);
    FullBelow(bits, MAX_CLEN, i);
    DropLongest(bits, i);
    var c := b[..MAX_BITS + 1];
    forall m | 0 <= m < |c| ensures Space(c, m) < Pow2(m) { SpaceAgree(b, c, m); }
    TailSum(b, MAX_BITS + 1);
    assert i > 0;
  }

  lemma {:induction false} TailSum(s: seq<nat>, m: nat)
    requires m <= |s| && forall k :: m <= k < |s| ==> s[k] == 0
    ensures Sum(s[..m]) == Sum(s)
    decreases |s|
  {
    if m == |s| {
      assert s[..m] == s;
    } else {
      var t := s[..|s| - 1];
      TailSum(t, m);
      assert t[..m] == s[..m];
    }
  }

  lemma SomeCodeLeft(bits: seq<nat>, i: nat, n: nat)
    requires Full(bits, i, n)
    ensures exists j :: 0 < j <= i && bits[j] > 0
  {
    FullBelow(bits, MAX_CLEN, i);
    SomeCode(bits, i);
  }

  // One of the longest codes, of length i, is gone from the counts.
  predicate OneGone(before: seq<nat>, after: seq<nat>, i: nat) {
    && 0 < i <= 16 < |before| && |after| == 17
    && before[i] > 0 && (forall k :: i < k < |before| ==> before[k] == 0)
    && forall k :: 0 <= k <= 16 ==> after[k] == if k == i then before[k] - 1 else before[k]
  }

  lemma IsGone(before: seq<nat>, i: nat, n: nat)
    requires Full(before, i, n) && 0 < i <= MAX_BITS && before[i] > 0
    ensures OneGone(before, before[i := before[i] - 1][..MAX_BITS + 1], i)
  {
    hide Sum, Space;
  }

  method DropPseudo(bits: array<nat>, ghost n: nat) returns (ghost longest: nat)
    requires Full(bits[..], MAX_BITS, n)
    modifies bits
    ensures n > 0 && bits.Length > MAX_BITS && Limited(bits[..MAX_BITS + 1], n - 1)
    ensures OneGone(old(bits[..]), bits[..MAX_BITS + 1], longest)
  {
    hide Limited, Space, Sum;
    var i := MAX_BITS;
    SomeCodeLeft(bits[..], i, n);
    ghost var j: nat :| 0 < j <= i && bits[j] > 0;
    while bits[i] == 0
      invariant j <= i <= MAX_BITS && Full(bits[..], i, n)
      decreases i
    {
      i := i - 1;
    }
    DropOne(bits[..], i, n);
    ghost var after := bits[..][i := bits[i] - 1];
    bits[i] := bits[i] - 1;
    assert bits[..] == after;
    assert after[..MAX_BITS + 1] == bits[..MAX_BITS + 1];
    longest := i;
    IsGone(old(bits[..]), i, n);
  }

  // ---- Listing the symbols --------------------------------------------------------------------

  // Symbols stand in order of their lengths, and of their numbers where these agree.
  function Key(size: seq<nat>, s: nat): nat
    requires s < |size|
  {
    REAL * size[s] + s
  }

  // v lists every symbol with a code whose key is below the bound, once and in order.
  predicate Listed(size: seq<nat>, v: seq<nat>, bound: nat) {
    && (forall k :: 0 <= k < |v| ==> v[k] < |size| && size[v[k]] > 0 && Key(size, v[k]) < bound)
    && (forall j, k :: 0 <= j < k < |v| ==> Key(size, v[j]) < Key(size, v[k]))
    && (forall s :: 0 <= s < |size| && size[s] > 0 && Key(size, s) < bound ==> s in v)
  }

  // done[s] is 1 for the symbols already listed.
  predicate Marks(size: seq<nat>, done: seq<nat>, bound: nat) {
    && |done| == |size|
    && forall s :: 0 <= s < |size| ==> done[s] == if size[s] > 0 && Key(size, s) < bound then 1 else 0
  }

  lemma {:induction false} MarksAtMost(done: seq<nat>)
    requires forall s :: 0 <= s < |done| ==> done[s] <= 1
    ensures Sum(done) <= |done|
  {
    if done != [] { MarksAtMost(done[..|done| - 1]); }
  }

  lemma {:induction false} AllMarked(size: seq<nat>, done: seq<nat>)
    requires |done| == |size| && forall s :: 0 <= s < |size| ==> done[s] == if size[s] > 0 then 1 else 0
    ensures Sum(done) == Used(size)
  {
    if size != [] { AllMarked(size[..|size| - 1], done[..|size| - 1]); }
  }

  lemma MarkOne(size: seq<nat>, v: seq<nat>, done: seq<nat>, s: nat)
    requires |size| == REAL && s < REAL && size[s] > 0
    requires Listed(size, v, Key(size, s)) && Marks(size, done, Key(size, s)) && |v| == Sum(done)
    ensures |v| < REAL
    ensures Listed(size, v + [s], Key(size, s) + 1) && Marks(size, done[s := 1], Key(size, s) + 1)
    ensures |v| + 1 == Sum(done[s := 1])
  {
    hide Sum;
    SumUpdate(done, s, 1);
    MarksAtMost(done[s := 1]);
    forall t | 0 <= t < |size| && Key(size, t) == Key(size, s) ensures t == s {}
  }

  lemma NoneToMark(size: seq<nat>, v: seq<nat>, done: seq<nat>, n: nat, s: nat)
    requires |size| == REAL && s < REAL && size[s] != n && Listed(size, v, REAL * n + s)
        && Marks(size, done, REAL * n + s)
    ensures Listed(size, v, REAL * n + s + 1) && Marks(size, done, REAL * n + s + 1)
  {
  }

  // Writes the symbols in order of code length; returns how many there are.
  method ListSymbols(codesize: array<nat>, huffval: array<nat>) returns (p: nat)
    requires codesize.Length == SYMBOLS && huffval.Length == REAL && codesize != huffval
    requires forall s :: 0 <= s < SYMBOLS ==> codesize[s] <= MAX_CLEN
    requires forall p :: 0 <= p < REAL ==> huffval[p] < REAL
    modifies huffval
    ensures forall p :: 0 <= p < REAL ==> huffval[p] < REAL
    ensures p == Used(codesize[..REAL]) <= REAL
    ensures Listed(codesize[..REAL], huffval[..p], REAL * (MAX_CLEN + 1))
  {
    hide Listed, Marks, Sum;
    ghost var size := codesize[..REAL];
    ghost var done: seq<nat> := seq(REAL, _ => 0);
    p := 0;
    var i := 1;
    StartListing(size, done);
    while i <= MAX_CLEN
      invariant 1 <= i <= MAX_CLEN + 1 && p <= REAL == |done| && p == Sum(done)
      invariant forall q :: 0 <= q < REAL ==> huffval[q] < REAL
      invariant Listed(size, huffval[..p], REAL * i) && Marks(size, done, REAL * i)
    {
      var j := 0;
      while j < REAL
        invariant 0 <= j <= REAL && p <= REAL == |done| && p == Sum(done)
        invariant forall q :: 0 <= q < REAL ==> huffval[q] < REAL
        invariant Listed(size, huffval[..p], REAL * i + j) && Marks(size, done, REAL * i + j)
      {
        if codesize[j] == i {
          MarkOne(size, huffval[..p], done, j);
          huffval[p] := j;
          assert huffval[..p + 1] == huffval[..p] + [j];
          p := p + 1;
          done := done[j := 1];
        } else {
          NoneToMark(size, huffval[..p], done, i, j);
        }
        j := j + 1;
      }
      i := i + 1;
    }
    EndListing(size, done);
  }

  lemma StartListing(size: seq<nat>, done: seq<nat>)
    requires |size| == |done| == REAL && forall s :: 0 <= s < REAL ==> done[s] == 0
    ensures Listed(size, [], REAL) && Marks(size, done, REAL) && Sum(done) == 0
  {
    SumZero(done);
  }

  lemma EndListing(size: seq<nat>, done: seq<nat>)
    requires |size| == REAL && Marks(size, done, REAL * (MAX_CLEN + 1))
    requires forall s :: 0 <= s < REAL ==> size[s] <= MAX_CLEN
    ensures Sum(done) == Used(size)
  {
    AllMarked(size, done);
  }

  // ---- The whole procedure -----------------------------------------------------------------------

  lemma FromOptimal(w: seq<nat>, size: seq<nat>, x: nat)
    requires |w| == SYMBOLS && w[PSEUDO] > 0 && x < REAL && w[x] > 0 && Optimal(w, size) && !TooLong(size)
    requires Used(size) <= 255
    ensures forall s :: 0 <= s < SYMBOLS ==> (w[s] > 0 <==> size[s] > 0)
    ensures Full(Tally(size), MAX_CLEN, Used(size))
  {
    hide Sum, HuffForest.Cheapest, Space, Pow2, Tally;
    var k :| HuffForest.Complete(w, size, k);
    forall s | 0 <= s < SYMBOLS ensures w[s] > 0 <==> size[s] > 0 {
      if w[s] > 0 { NoEmptyCode(w, size, k, s, if s == x then PSEUDO else x); }
    }
    CompleteAt(w, size, k, MAX_CLEN);
    TallySpace(w, size);
    TallyCounts(size);
  }

  lemma {:induction false} UsedAlike(a: seq<nat>, b: seq<nat>)
    requires |a| == |b| && forall s :: 0 <= s < |a| ==> (a[s] > 0 <==> b[s] > 0)
    ensures Used(a) == Used(b)
  {
    if a != [] { UsedAlike(a[..|a| - 1], b[..|b| - 1]); }
  }

  lemma {:induction false} UsedNoMore(a: seq<nat>, b: seq<nat>)
    requires |a| == |b| && forall s :: 0 <= s < |a| ==> (a[s] > 0 ==> b[s] > 0)
    ensures Used(a) <= Used(b)
  {
    if a != [] { UsedNoMore(a[..|a| - 1], b[..|b| - 1]); }
  }

  // What the finished table is: it gives each symbol in use one code of at most 16
  // bits, none of all ones, and the codes follow the order of the optimal lengths.
  predicate Built(w: seq<nat>, size: seq<nat>, t: HuffTbl) {
    && |w| == |size| == SYMBOLS
    && |t.huffval| == REAL && (forall p :: 0 <= p < REAL ==> t.huffval[p] < REAL)
    && Limited(t.bits, Used(w[..REAL]))
    && var listed := t.huffval[..Used(w[..REAL])];
    && Listed(size[..REAL], listed, REAL * (MAX_CLEN + 1))
    && (forall s :: 0 <= s < REAL ==> (w[s] > 0 <==> s in listed))
  }

  lemma AllListed(w: seq<nat>, size: seq<nat>, t: HuffTbl)
    requires |w| == |size| == SYMBOLS && |t.huffval| == REAL && !TooLong(size)
        && forall p :: 0 <= p < REAL ==> t.huffval[p] < REAL
    requires forall s :: 0 <= s < SYMBOLS ==> (w[s] > 0 <==> size[s] > 0)
    requires Limited(t.bits, Used(w[..REAL]))
    requires Listed(size[..REAL], t.huffval[..Used(w[..REAL])], REAL * (MAX_CLEN + 1))
    ensures Built(w, size, t)
  {
    hide Limited;
    var v, sz := t.huffval[..Used(w[..REAL])], size[..REAL];
    forall s | 0 <= s < REAL ensures w[s] > 0 <==> s in v {
      assert Key(sz, s) < REAL * (MAX_CLEN + 1);
      if s in v {
        var k :| 0 <= k < |v| && v[k] == s;
        assert sz[v[k]] > 0;
      }
    }
  }

  // Where the counts of the table come from: those of the optimal lengths, the
  // pseudo-symbol's among them, limited to 16 bits, without one of the longest codes.
  ghost predicate CountsFrom(size: seq<nat>, bits: seq<nat>) {
    && |size| == SYMBOLS && size[PSEUDO] > 0 && !TooLong(size)
    && exists steps, limited, i: nat :: LimitedBy(steps, Tally(size), limited) && OneGone(limited, bits, i)
  }

  method GenOptimalTable(freq: array<nat>) returns (r: Result<HuffTbl>, ghost size: seq<nat>)
    requires freq.Length == SYMBOLS && Sum(freq[..][PSEUDO := 1]) <= MAX_COUNT
    requires exists x :: 0 <= x < REAL && freq[x] > 0
    requires Used(freq[..REAL]) <= 254
    modifies freq
    ensures var w := old(freq[..])[PSEUDO := 1];
            && Optimal(w, size) && size == CodeSizes(w)
            && (r.Err? <==> TooLong(size)) && (r.Ok? ==> Built(w, size, r.value) && CountsFrom(size, r.value.bits))
  {
    hide Sum, Optimal, Full, Limited, Listed, Used, CodeSizes, LimitedBy, OneGone, CountsFrom;
    ghost var w := freq[..][PSEUDO := 1];
    ghost var x :| 0 <= x < REAL && freq[x] > 0;
    assert w[..REAL] == freq[..REAL];
    var codesize := CodeLengths(freq);
    size := codesize[..];
    AtMost255(w, size);
    var bits: array<nat>;
    var counted := CountLengths(codesize);
    if counted.Err? {
      return Err, size;
    }
    bits := counted.value;
    FromOptimal(w, size, x);
    UsedSplit(w, size);
    ghost var steps := LimitLengths(bits, Used(size));
    ghost var limited := bits[..];
    ghost var longest := DropPseudo(bits, Used(size));
    CountsTraced(size, steps, limited, bits[..MAX_BITS + 1], longest);
    var huffval := new nat[REAL](_ => 0);
    var p := ListSymbols(codesize, huffval);
    var t := HuffTbl(bits[..MAX_BITS + 1], huffval[..]);
    assert t.huffval[..p] == huffval[..p];
    AllListed(w, size, t);
    r := Ok(t);
  }

  lemma CountsTraced(size: seq<nat>, steps: seq<seq<nat>>, limited: seq<nat>, bits: seq<nat>, i: nat)
    requires |size| == SYMBOLS && size[PSEUDO] > 0 && !TooLong(size)
    requires LimitedBy(steps, Tally(size), limited) && OneGone(limited, bits, i)
    ensures CountsFrom(size, bits)
  {
  }

  lemma AtMost255(w: seq<nat>, size: seq<nat>)
    requires |w| == SYMBOLS && Optimal(w, size) && Used(w[..REAL]) <= 254
    ensures Used(size) <= 255
  {
    assert size[..REAL] == size[..|size| - 1];
    UsedNoMore(size[..REAL], w[..REAL]);
  }

  lemma UsedSplit(w: seq<nat>, size: seq<nat>)
    requires |w| == |size| == SYMBOLS && w[PSEUDO] > 0 && forall s :: 0 <= s < SYMBOLS ==> (w[s] > 0 <==> size[s] > 0)
    ensures Used(size) == Used(w[..REAL]) + 1 && Used(size[..REAL]) == Used(w[..REAL])
  {
    assert size[..REAL] == size[..|size| - 1];
    UsedAlike(size[..REAL], w[..REAL]);
  }
}
